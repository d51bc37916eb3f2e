/**
 The ordering side of the radix sorts: digit fields of a 32-bit key, and why
 stable passes from the least significant field up sort by the whole key.
 */
module RadixOrder {
  import opened Order

  /** A sort record: the recoded key and the value it carries. */
  datatype Entry<V> = Entry(key: bv32, value: V)

  /** Unsigned comparison of 32-bit words. */
  predicate Below(x: bv32, y: bv32) {
    x < y
  }

  /** The digit fields of the 8-bit and of the 11-bit sort, least significant first. */
  datatype Field = Byte0 | Byte1 | Byte2 | Byte3 | Low11 | Mid11 | High10

  function Digit(f: Field, key: bv32): (d: bv32) {
    match f
    case Byte0 => key & 0xff
    case Byte1 => (key >> 8) & 0xff
    case Byte2 => (key >> 16) & 0xff
    case Byte3 => key >> 24
    case Low11 => key & 0x7ff
    case Mid11 => (key >> 11) & 0x7ff
    case High10 => key >> 22
  }

  function Buckets(f: Field): (n: nat) {
    match f
    case Byte0 | Byte1 | Byte2 | Byte3 => 256
    case Low11 | Mid11 => 2048
    case High10 => 1024
  }

  function Int32(d: bv32): (i: nat) { d as int }

  /** The digit as a histogram index. */
  function Index(f: Field, key: bv32): (i: nat) {
    Int32(Digit(f, key))
  }

  // ---- Digits compare like their indices ----

  ghost function Int4(a: bv4): nat { a as int }
  ghost function Int5(a: bv5): nat { a as int }
  ghost function Int6(a: bv6): nat { a as int }
  ghost function Int8(a: bv8): nat { a as int }
  ghost function Int10(a: bv10): nat { a as int }
  ghost function Int11(a: bv11): nat { a as int }

  lemma Monotone4(a: bv4, b: bv4)
    ensures a < b <==> Int4(a) < Int4(b)
  {
  }

  lemma Monotone5(a: bv5, b: bv5)
    ensures a < b <==> Int5(a) < Int5(b)
  {
  }

  lemma Monotone6(a: bv6, b: bv6)
    ensures a < b <==> Int6(a) < Int6(b)
    ensures Int6(a) < 64
  {
  }

  lemma Monotone8(a: bv8, b: bv8)
    ensures a < b <==> Int8(a) < Int8(b)
    ensures Int8(a) < 256
  {
  }

  lemma Split10(a: bv10)
    ensures Int10(a) == Int4((a >> 6) as bv4) * 64 + Int6((a & 63) as bv6)
  {
  }

  lemma Split11(a: bv11)
    ensures Int11(a) == Int5((a >> 6) as bv5) * 64 + Int6((a & 63) as bv6)
  {
  }

  lemma Compare10(a: bv10, b: bv10)
    ensures a < b <==>
      ((a >> 6) as bv4 < (b >> 6) as bv4 || ((a >> 6) as bv4 == (b >> 6) as bv4 && (a & 63) as bv6 < (b & 63) as bv6))
  {
  }

  lemma Compare11(a: bv11, b: bv11)
    ensures a < b <==>
      ((a >> 6) as bv5 < (b >> 6) as bv5 || ((a >> 6) as bv5 == (b >> 6) as bv5 && (a & 63) as bv6 < (b & 63) as bv6))
  {
  }

  lemma Monotone10(a: bv10, b: bv10)
    ensures a < b <==> Int10(a) < Int10(b)
  {
    hide Int4, Int6, Int10;
    Compare10(a, b);
    Split10(a);
    Split10(b);
    Monotone4((a >> 6) as bv4, (b >> 6) as bv4);
    Monotone4((b >> 6) as bv4, (a >> 6) as bv4);
    Monotone6((a & 63) as bv6, (b & 63) as bv6);
    Monotone6((b & 63) as bv6, (a & 63) as bv6);
  }

  lemma Monotone11(a: bv11, b: bv11)
    ensures a < b <==> Int11(a) < Int11(b)
  {
    hide Int5, Int6, Int11;
    Compare11(a, b);
    Split11(a);
    Split11(b);
    Monotone5((a >> 6) as bv5, (b >> 6) as bv5);
    Monotone5((b >> 6) as bv5, (a >> 6) as bv5);
    Monotone6((a & 63) as bv6, (b & 63) as bv6);
    Monotone6((b & 63) as bv6, (a & 63) as bv6);
  }

  lemma Narrow8(d: bv32)
    requires d < 0x100
    ensures Int32(d) == Int8(d as bv8) && Int32(d) < 0x100
  {
  }

  lemma Narrow10(d: bv32)
    requires d < 0x400
    ensures Int32(d) == Int10(d as bv10) && Int32(d) < 0x400
  {
  }

  lemma Narrow11(d: bv32)
    requires d < 0x800
    ensures Int32(d) == Int11(d as bv11) && Int32(d) < 0x800
  {
  }

  lemma Small8(d: bv32, e: bv32)
    requires d < 0x100 && e < 0x100
    ensures Int32(d) < 0x100
    ensures Below(d, e) <==> Int32(d) < Int32(e)
  {
    hide Int32, Int8;
    Narrow8(d);
    Narrow8(e);
    Monotone8(d as bv8, e as bv8);
    assert d < e <==> d as bv8 < e as bv8;
  }

  lemma Small10(d: bv32, e: bv32)
    requires d < 0x400 && e < 0x400
    ensures Int32(d) < 0x400
    ensures Below(d, e) <==> Int32(d) < Int32(e)
  {
    hide Int32, Int10;
    Narrow10(d);
    Narrow10(e);
    Monotone10(d as bv10, e as bv10);
    assert d < e <==> d as bv10 < e as bv10;
  }

  lemma Small11(d: bv32, e: bv32)
    requires d < 0x800 && e < 0x800
    ensures Int32(d) < 0x800
    ensures Below(d, e) <==> Int32(d) < Int32(e)
  {
    hide Int32, Int11;
    Narrow11(d);
    Narrow11(e);
    Monotone11(d as bv11, e as bv11);
    assert d < e <==> d as bv11 < e as bv11;
  }

  /** The largest digit of a field, plus one. */
  function Limit(f: Field): (n: bv32) {
    match f
    case Byte0 | Byte1 | Byte2 | Byte3 => 0x100
    case Low11 | Mid11 => 0x800
    case High10 => 0x400
  }

  lemma DigitBounds(f: Field, key: bv32)
    ensures Digit(f, key) < Limit(f)
  {
  }

  lemma SmallDigits(f: Field, d: bv32, e: bv32)
    requires d < Limit(f) && e < Limit(f)
    ensures Int32(d) < Buckets(f)
    ensures Below(d, e) <==> Int32(d) < Int32(e)
  {
    hide Int32, Below;
    match f
    case Byte0 | Byte1 | Byte2 | Byte3 => Small8(d, e);
    case Low11 | Mid11 => Small11(d, e);
    case High10 => Small10(d, e);
  }

  /** Digits fit their histogram and compare as their indices do. */
  lemma IndexMonotone(f: Field, x: bv32, y: bv32)
    ensures Index(f, x) < Buckets(f)
    ensures Index(f, x) < Index(f, y) <==> Below(Digit(f, x), Digit(f, y))
  {
    hide Digit, Int32, Limit, Buckets, Below;
    DigitBounds(f, x);
    DigitBounds(f, y);
    SmallDigits(f, Digit(f, x), Digit(f, y));
  }

  // ---- Stable passes compose ----

  /** `both` orders by `high` first and by `low` among equals. */
  ghost predicate Lexicographic<T(!new)>(high: (T, T) -> bool, low: (T, T) -> bool, both: (T, T) -> bool) {
    forall x, y :: Less(both, x, y) <==> Less(high, x, y) || (!Less(high, y, x) && Less(low, x, y))
  }

  lemma ComposeSorted<T(!new)>(high: (T, T) -> bool, low: (T, T) -> bool, both: (T, T) -> bool, t: seq<T>, u: seq<T>)
    requires StrictWeakOrder(high) && Lexicographic(high, low, both)
    requires Sorted(low, t)
    requires Sorted(high, u) && SameClasses(high, t, u)
    ensures Sorted(both, u)
  {
    forall i, j | 0 <= i < j < |u| ensures !Less(both, u[j], u[i]) {
      if Less(high, u[i], u[j]) {
        StrictWeakOrderAsymmetric(high, u[i], u[j]);
      } else {
        var x := u[i];
        StrictWeakOrderIrreflexive(high, x);
        assert Class(high, x, t) == Class(high, x, u);
        FilterSorted(low, y => Equivalent(high, x, y), t);
        FilterOrder(low, y => Equivalent(high, x, y), u, i, j);
      }
    }
  }

  lemma ComposeClasses<T(!new)>(high: (T, T) -> bool, low: (T, T) -> bool, both: (T, T) -> bool, s: seq<T>, t: seq<T>, u: seq<T>)
    requires StrictWeakOrder(high) && StrictWeakOrder(low) && Lexicographic(high, low, both)
    requires SameClasses(low, s, t) && SameClasses(high, t, u)
    ensures SameClasses(both, s, u)
  {
    forall x ensures Class(both, x, s) == Class(both, x, u) {
      EquivalentBoth(high, low, both, x);
      var h, l, b := y => Equivalent(high, x, y), y => Equivalent(low, x, y), y => Equivalent(both, x, y);
      FilterFilter(l, h, b, u);
      FilterFilter(l, h, b, t);
      FilterFilter(h, l, b, t);
      FilterFilter(h, l, b, s);
      assert Class(high, x, t) == Class(high, x, u) && Class(low, x, s) == Class(low, x, t);
    }
  }

  lemma EquivalentBoth<T(!new)>(high: (T, T) -> bool, low: (T, T) -> bool, both: (T, T) -> bool, x: T)
    requires StrictWeakOrder(high) && StrictWeakOrder(low) && Lexicographic(high, low, both)
    ensures forall y :: Equivalent(both, x, y) <==> Equivalent(high, x, y) && Equivalent(low, x, y)
  {
  }

  /**
   A stable sort by the high part of the key after a stable sort by the low part
   is the stable sort by both.
   */
  lemma StablePassesCompose<T(!new)>(high: (T, T) -> bool, low: (T, T) -> bool, both: (T, T) -> bool, s: seq<T>)
    requires StrictWeakOrder(high) && StrictWeakOrder(low) && StrictWeakOrder(both)
    requires Lexicographic(high, low, both)
    ensures StableSort(high, StableSort(low, s)) == StableSort(both, s)
  {
    hide StableSort, StrictWeakOrder, Lexicographic, Sorted, SameClasses;
    var t := StableSort(low, s);
    var u := StableSort(high, t);
    StableSortCorrect(low, s);
    StableSortCorrect(high, t);
    ComposeSorted(high, low, both, t, u);
    ComposeClasses(high, low, both, s, t, u);
    StableSortUnique(both, s, u);
  }

  // ---- The field orders ----

  function Masked(x: bv32, mask: bv32): (r: bv32) {
    x & mask
  }

  /** Orders records by one digit. */
  function FieldLess<V>(f: Field): (less: (Entry<V>, Entry<V>) -> bool) {
    (x: Entry<V>, y: Entry<V>) => Index(f, x.key) < Index(f, y.key)
  }

  /** Orders records by the key bits under `mask`, a run of low bits. */
  function MaskLess<V>(mask: bv32): (less: (Entry<V>, Entry<V>) -> bool) {
    (x: Entry<V>, y: Entry<V>) => Below(Masked(x.key, mask), Masked(y.key, mask))
  }

  /** `operator<` of the sort records. */
  function KeyLess<V>(): (less: (Entry<V>, Entry<V>) -> bool) {
    (x: Entry<V>, y: Entry<V>) => Below(x.key, y.key)
  }

  /** The number a word stands for, by its bytes. */
  ghost function Value(x: bv32): nat {
    ((Index(Byte3, x) * 256 + Index(Byte2, x)) * 256 + Index(Byte1, x)) * 256 + Index(Byte0, x)
  }

  lemma CompareBytes(x: bv32, y: bv32)
    ensures Below(x, y) <==>
      (Below(x >> 24, y >> 24) || (!Below(y >> 24, x >> 24) &&
       (Below((x >> 16) & 0xff, (y >> 16) & 0xff) || (!Below((y >> 16) & 0xff, (x >> 16) & 0xff) &&
        (Below((x >> 8) & 0xff, (y >> 8) & 0xff) || (!Below((y >> 8) & 0xff, (x >> 8) & 0xff) &&
          Below(x & 0xff, y & 0xff)))))))
  {
    hide Below;
    FullMask(x);
    FullMask(y);
    CompareByte3(x, y);
    CompareByte2(x, y);
    CompareByte1(x, y);
  }

  lemma FullMask(x: bv32)
    ensures x & 0xffffffff == x
  {
  }

  lemma BelowIsValue(x: bv32, y: bv32)
    ensures Below(x, y) <==> Value(x) < Value(y)
  {
    hide Below, Index, Int32;
    CompareBytes(x, y);
    ByteIndices(x, y);
    ByteIndices(y, x);
  }

  lemma ByteIndices(x: bv32, y: bv32)
    ensures Index(Byte0, x) < 256 && (Index(Byte0, x) < Index(Byte0, y) <==> Below(x & 0xff, y & 0xff))
    ensures Index(Byte1, x) < 256 && (Index(Byte1, x) < Index(Byte1, y) <==> Below((x >> 8) & 0xff, (y >> 8) & 0xff))
    ensures Index(Byte2, x) < 256 && (Index(Byte2, x) < Index(Byte2, y) <==> Below((x >> 16) & 0xff, (y >> 16) & 0xff))
    ensures Index(Byte3, x) < 256 && (Index(Byte3, x) < Index(Byte3, y) <==> Below(x >> 24, y >> 24))
  {
    hide Below, Index, Int32;
    IndexMonotone(Byte0, x, y);
    IndexMonotone(Byte1, x, y);
    IndexMonotone(Byte2, x, y);
    IndexMonotone(Byte3, x, y);
  }

  lemma BelowOrders(x: bv32, y: bv32, z: bv32)
    ensures !Below(x, x)
    ensures Below(x, y) ==> !Below(y, x)
    ensures Below(x, z) ==> Below(x, y) || Below(y, z)
  {
    hide Below, Value;
    BelowIsValue(x, x);
    BelowIsValue(x, y);
    BelowIsValue(y, x);
    BelowIsValue(x, z);
    BelowIsValue(y, z);
  }

  lemma FieldLessOrders<V(!new)>(f: Field)
    ensures StrictWeakOrder(FieldLess<V>(f))
  {
    hide Index;
  }

  /** Comparing images under `image` by `Below` is a strict weak order. */
  lemma ImageOrders<T(!new)>(less: (T, T) -> bool, image: T -> bv32)
    requires forall x, y :: Less(less, x, y) <==> Below(image(x), image(y))
    ensures StrictWeakOrder(less)
  {
    hide Below, Less;
    forall x ensures !Less(less, x, x) {
      BelowOrders(image(x), image(x), image(x));
    }
    forall x, y | Less(less, x, y) ensures !Less(less, y, x) {
      BelowOrders(image(x), image(y), image(y));
    }
    forall x, y, z | Less(less, x, z) ensures Less(less, x, y) || Less(less, y, z) {
      BelowOrders(image(x), image(y), image(z));
    }
  }

  lemma MaskLessOrders<V(!new)>(mask: bv32)
    ensures StrictWeakOrder(MaskLess<V>(mask))
  {
    hide Below, Masked;
    ImageOrders(MaskLess<V>(mask), (x: Entry<V>) => Masked(x.key, mask));
  }

  lemma KeyLessOrders<V(!new)>()
    ensures StrictWeakOrder(KeyLess<V>())
  {
    hide Below;
    ImageOrders(KeyLess<V>(), (x: Entry<V>) => x.key);
  }

  /** The bits sorted once the passes up to and including `f` are done. */
  function MaskThrough(f: Field): (mask: bv32) {
    match f
    case Byte0 => 0xff
    case Byte1 => 0xffff
    case Byte2 => 0xffffff
    case Low11 => 0x7ff
    case Mid11 => 0x3fffff
    case Byte3 | High10 => 0xffffffff
  }

  /** The bits sorted before the pass on `f`. */
  function MaskBefore(f: Field): (mask: bv32) {
    match f
    case Byte0 | Low11 => 0
    case Byte1 => 0xff
    case Byte2 => 0xffff
    case Byte3 => 0xffffff
    case Mid11 => 0x7ff
    case High10 => 0x3fffff
  }

  /** The digit of `f` extends the bits below it. */
  ghost predicate Extends(f: Field, x: bv32, y: bv32) {
    Below(Masked(x, MaskThrough(f)), Masked(y, MaskThrough(f))) <==>
      (Below(Digit(f, x), Digit(f, y)) ||
       (!Below(Digit(f, y), Digit(f, x)) && Below(Masked(x, MaskBefore(f)), Masked(y, MaskBefore(f)))))
  }

  lemma CompareByte0(x: bv32, y: bv32)
    ensures Below(x & 0xff, y & 0xff) <==>
      (Below(x & 0xff, y & 0xff) || (!Below(y & 0xff, x & 0xff) && Below(x & 0, y & 0)))
  {
  }

  lemma CompareByte1(x: bv32, y: bv32)
    ensures Below(x & 0xffff, y & 0xffff) <==>
      (Below((x >> 8) & 0xff, (y >> 8) & 0xff) || (!Below((y >> 8) & 0xff, (x >> 8) & 0xff) && Below(x & 0xff, y & 0xff)))
  {
  }

  lemma CompareByte2(x: bv32, y: bv32)
    ensures Below(x & 0xffffff, y & 0xffffff) <==>
      (Below((x >> 16) & 0xff, (y >> 16) & 0xff) || (!Below((y >> 16) & 0xff, (x >> 16) & 0xff) && Below(x & 0xffff, y & 0xffff)))
  {
  }

  lemma CompareByte3(x: bv32, y: bv32)
    ensures Below(x & 0xffffffff, y & 0xffffffff) <==>
      (Below(x >> 24, y >> 24) || (!Below(y >> 24, x >> 24) && Below(x & 0xffffff, y & 0xffffff)))
  {
  }

  lemma CompareLow11(x: bv32, y: bv32)
    ensures Below(x & 0x7ff, y & 0x7ff) <==>
      (Below(x & 0x7ff, y & 0x7ff) || (!Below(y & 0x7ff, x & 0x7ff) && Below(x & 0, y & 0)))
  {
  }

  lemma CompareMid11(x: bv32, y: bv32)
    ensures Below(x & 0x3fffff, y & 0x3fffff) <==>
      (Below((x >> 11) & 0x7ff, (y >> 11) & 0x7ff) || (!Below((y >> 11) & 0x7ff, (x >> 11) & 0x7ff) && Below(x & 0x7ff, y & 0x7ff)))
  {
  }

  lemma CompareHigh10(x: bv32, y: bv32)
    ensures Below(x & 0xffffffff, y & 0xffffffff) <==>
      (Below(x >> 22, y >> 22) || (!Below(y >> 22, x >> 22) && Below(x & 0x3fffff, y & 0x3fffff)))
  {
  }

  /** The masks and the digit of each field, as the comparisons above write them. */
  lemma FieldBits(f: Field, x: bv32)
    ensures var through, digit, before := Masked(x, MaskThrough(f)), Digit(f, x), Masked(x, MaskBefore(f));
      match f
      case Byte0 => through == x & 0xff && digit == x & 0xff && before == x & 0
      case Byte1 => through == x & 0xffff && digit == (x >> 8) & 0xff && before == x & 0xff
      case Byte2 => through == x & 0xffffff && digit == (x >> 16) & 0xff && before == x & 0xffff
      case Byte3 => through == x & 0xffffffff && digit == x >> 24 && before == x & 0xffffff
      case Low11 => through == x & 0x7ff && digit == x & 0x7ff && before == x & 0
      case Mid11 => through == x & 0x3fffff && digit == (x >> 11) & 0x7ff && before == x & 0x7ff
      case High10 => through == x & 0xffffffff && digit == x >> 22 && before == x & 0x3fffff
  {
  }

  lemma DigitExtendsMask(f: Field, x: bv32, y: bv32)
    ensures Extends(f, x, y)
  {
    hide Below, Masked, MaskThrough, MaskBefore, Digit;
    FieldBits(f, x);
    FieldBits(f, y);
    match f
    case Byte0 => CompareByte0(x, y);
    case Byte1 => CompareByte1(x, y);
    case Byte2 => CompareByte2(x, y);
    case Byte3 => CompareByte3(x, y);
    case Low11 => CompareLow11(x, y);
    case Mid11 => CompareMid11(x, y);
    case High10 => CompareHigh10(x, y);
  }

  lemma FieldExtendsMask<V(!new)>(f: Field)
    ensures Lexicographic(FieldLess<V>(f), MaskLess<V>(MaskBefore(f)), MaskLess<V>(MaskThrough(f)))
  {
    hide Digit, Index, MaskThrough, MaskBefore, Below, Masked;
    forall x: Entry<V>, y: Entry<V>
      ensures Less(MaskLess<V>(MaskThrough(f)), x, y) <==>
        (Less(FieldLess<V>(f), x, y) || (!Less(FieldLess<V>(f), y, x) && Less(MaskLess<V>(MaskBefore(f)), x, y)))
    {
      DigitExtendsMask(f, x.key, y.key);
      IndexMonotone(f, x.key, y.key);
      IndexMonotone(f, y.key, x.key);
    }
  }

  /** One pass takes records sorted by the bits before its field to sorted through its field. */
  lemma PassSorts<V(!new)>(f: Field, s: seq<Entry<V>>)
    ensures StableSort(FieldLess(f), StableSort(MaskLess(MaskBefore(f)), s)) == StableSort(MaskLess(MaskThrough(f)), s)
  {
    FieldLessOrders<V>(f);
    MaskLessOrders<V>(MaskBefore(f));
    MaskLessOrders<V>(MaskThrough(f));
    FieldExtendsMask<V>(f);
    StablePassesCompose(FieldLess(f), MaskLess(MaskBefore(f)), MaskLess(MaskThrough(f)), s);
  }

  /** Where no two elements are ordered, the stable sort is the identity. */
  lemma FlatSort<T(!new)>(less: (T, T) -> bool, s: seq<T>)
    requires StrictWeakOrder(less)
    requires forall i, j :: 0 <= i < j < |s| ==> !Less(less, s[j], s[i])
    ensures StableSort(less, s) == s
  {
    StableSortUnique(less, s, s);
  }

  lemma SameOrderSort<T(!new)>(f: (T, T) -> bool, g: (T, T) -> bool, s: seq<T>)
    requires forall x, y :: Less(f, x, y) <==> Less(g, x, y)
    requires StrictWeakOrder(f) && StrictWeakOrder(g)
    ensures StableSort(f, s) == StableSort(g, s)
  {
    hide StableSort;
    StableSortCorrect(f, s);
    var t := StableSort(f, s);
    forall x ensures Class(g, x, s) == Class(g, x, t) {
      FilterAgree(y => Equivalent(f, x, y), y => Equivalent(g, x, y), s);
      FilterAgree(y => Equivalent(f, x, y), y => Equivalent(g, x, y), t);
      assert Class(f, x, s) == Class(f, x, t);
    }
    StableSortUnique(g, s, t);
  }

  /** Before any pass nothing is sorted; after the last, everything is. */
  lemma PassesStart<V(!new)>(s: seq<Entry<V>>)
    ensures StableSort(MaskLess(0), s) == s
  {
    MaskLessOrders<V>(0);
    forall x: Entry<V>, y: Entry<V> ensures !Less(MaskLess<V>(0), x, y) {
      assert Masked(x.key, 0) == 0 == Masked(y.key, 0);
    }
    FlatSort(MaskLess(0), s);
  }

  lemma PassesEnd<V(!new)>(s: seq<Entry<V>>)
    ensures StableSort(MaskLess(0xffffffff), s) == StableSort(KeyLess(), s)
  {
    MaskLessOrders<V>(0xffffffff);
    KeyLessOrders<V>();
    forall x: Entry<V> ensures Masked(x.key, 0xffffffff) == x.key {
    }
    SameOrderSort(MaskLess<V>(0xffffffff), KeyLess<V>(), s);
  }
}

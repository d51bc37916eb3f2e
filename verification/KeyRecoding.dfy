/**
 The key recodings of `hxradix_sort_key::set_`: signed integers and floats
 become 32-bit words whose unsigned order is the order of the originals.

 Keys are given by their bits. What the bits mean is stated in integers: the
 two's complement value of a signed key, and the value of a float in units of
 2^-149, the smallest subnormal.
 */
module KeyRecoding {
  import opened Order
  import opened PowersOfTwo
  import opened RadixOrder

  const TWO31: nat := 0x8000_0000
  const TWO32: nat := 0x1_0000_0000
  const TWO23: nat := 0x80_0000

  /** `set_(int32_t)`: the sign bit is flipped. */
  function SignedKey(bits: bv32): (key: bv32) {
    bits ^ 0x8000_0000
  }

  /** `set_(float)`: the sign, spread by an arithmetic shift, selects which bits flip. */
  function FloatKey(bits: bv32): (key: bv32) {
    bits ^ (SpreadSign(bits) | 0x8000_0000)
  }

  /** The arithmetic right shift by 31 of a word read as signed. */
  function SpreadSign(bits: bv32): (mask: bv32) {
    if Sign(bits) then 0xffff_ffff else 0
  }

  // ---- Words as numbers ----

  lemma ByteValue(x: bv32)
    ensures Index(Byte0, x) == Int8((x & 0xff) as bv8)
    ensures Index(Byte1, x) == Int8(((x >> 8) & 0xff) as bv8)
    ensures Index(Byte2, x) == Int8(((x >> 16) & 0xff) as bv8)
    ensures Index(Byte3, x) == Int8((x >> 24) as bv8)
  {
    hide Int32, Int8;
    Narrow8(x & 0xff);
    Narrow8((x >> 8) & 0xff);
    Narrow8((x >> 16) & 0xff);
    Narrow8(x >> 24);
  }

  lemma FlipTop8(b: bv8)
    ensures Int8(b ^ 0x80) == if b & 0x80 != 0 then Int8(b) - 128 else Int8(b) + 128
    ensures Int8(b) < 256 && (b & 0x80 != 0 <==> Int8(b) >= 128)
  {
  }

  lemma Flip8(b: bv8)
    ensures Int8(b ^ 0xff) == 255 - Int8(b)
  {
  }

  lemma FlipTopBytes(x: bv32)
    ensures (x ^ 0x8000_0000) & 0xff == x & 0xff
    ensures ((x ^ 0x8000_0000) >> 8) & 0xff == (x >> 8) & 0xff
    ensures ((x ^ 0x8000_0000) >> 16) & 0xff == (x >> 16) & 0xff
    ensures ((x ^ 0x8000_0000) >> 24) as bv8 == ((x >> 24) as bv8) ^ 0x80
    ensures x & 0x8000_0000 != 0 <==> ((x >> 24) as bv8) & 0x80 != 0
  {
  }

  lemma FlipBytes(x: bv32)
    ensures ((x ^ 0xffff_ffff) & 0xff) as bv8 == ((x & 0xff) as bv8) ^ 0xff
    ensures (((x ^ 0xffff_ffff) >> 8) & 0xff) as bv8 == (((x >> 8) & 0xff) as bv8) ^ 0xff
    ensures (((x ^ 0xffff_ffff) >> 16) & 0xff) as bv8 == (((x >> 16) & 0xff) as bv8) ^ 0xff
    ensures ((x ^ 0xffff_ffff) >> 24) as bv8 == ((x >> 24) as bv8) ^ 0xff
  {
  }

  /** The sign bit of a word. */
  predicate Sign(x: bv32) {
    x & 0x8000_0000 != 0
  }

  lemma FlipTopIndices(x: bv32)
    ensures Index(Byte0, x ^ 0x8000_0000) == Index(Byte0, x)
    ensures Index(Byte1, x ^ 0x8000_0000) == Index(Byte1, x)
    ensures Index(Byte2, x ^ 0x8000_0000) == Index(Byte2, x)
    ensures Index(Byte3, x ^ 0x8000_0000) == if Sign(x) then Index(Byte3, x) - 128 else Index(Byte3, x) + 128
    ensures Sign(x) <==> Index(Byte3, x) >= 128
  {
    hide Int8, Int32, Index;
    ByteValue(x);
    ByteValue(x ^ 0x8000_0000);
    FlipTopBytes(x);
    FlipTop8((x >> 24) as bv8);
  }

  /** Flipping the top bit moves a word by half the range. */
  lemma FlipTopValue(x: bv32)
    ensures Value(x ^ 0x8000_0000) == if Sign(x) then Value(x) - TWO31 else Value(x) + TWO31
  {
    hide Index, Sign;
    FlipTopIndices(x);
  }

  /** Flipping every bit reflects a word in the range. */
  lemma FlipValue(x: bv32)
    ensures Value(x ^ 0xffff_ffff) == TWO32 - 1 - Value(x)
  {
    hide Int8, Int32, Index;
    ByteValue(x);
    ByteValue(x ^ 0xffff_ffff);
    FlipBytes(x);
    Flip8((x & 0xff) as bv8);
    Flip8(((x >> 8) & 0xff) as bv8);
    Flip8(((x >> 16) & 0xff) as bv8);
    Flip8((x >> 24) as bv8);
  }

  lemma ValueBounds(x: bv32)
    ensures Value(x) < TWO32
    ensures Sign(x) <==> Value(x) >= TWO31
  {
    hide Index, Sign;
    FlipTopIndices(x);
    ByteIndices(x, x);
  }

  // ---- Signed keys ----

  /** The number a word is in two's complement. */
  ghost function SignedValue(bits: bv32): int {
    if Sign(bits) then Value(bits) - TWO32 else Value(bits)
  }

  /** It is the one number in the signed range that is the word modulo 2^32. */
  lemma SignedValuePlain(bits: bv32)
    ensures -0x8000_0000 <= SignedValue(bits) < 0x8000_0000
    ensures SignedValue(bits) == Value(bits) || SignedValue(bits) == Value(bits) - 0x1_0000_0000
    ensures 0 <= Value(bits) < 0x1_0000_0000
  {
    hide Value, Sign;
    ValueBounds(bits);
  }

  /** `static_cast<int32_t>` of the narrower signed types repeats the sign bit. */
  function SignExtend8(bits: bv8): (wide: bv32) {
    (bits as bv32) | (if bits & 0x80 != 0 then 0xffff_ff00 else 0)
  }

  function SignExtend16(bits: bv16): (wide: bv32) {
    (bits as bv32) | (if bits & 0x8000 != 0 then 0xffff_0000 else 0)
  }

  /** The number a narrow word is in two's complement. */
  ghost function SignedValue8(bits: bv8): int {
    if bits & 0x80 != 0 then Int8(bits) - 256 else Int8(bits)
  }

  ghost function SignedValue16(bits: bv16): int {
    var high, low := (bits >> 8) as bv8, (bits & 0xff) as bv8;
    SignedValue8(high) * 256 + Int8(low)
  }

  /** They too are the numbers in the signed range that are the word modulo its range. */
  lemma NarrowValuePlain(b: bv8, w: bv16)
    ensures -128 <= SignedValue8(b) < 128 && (SignedValue8(b) == Int8(b) || SignedValue8(b) == Int8(b) - 256)
    ensures var low := Int8((w >> 8) as bv8) * 256 + Int8((w & 0xff) as bv8);
      -32768 <= SignedValue16(w) < 32768 && (SignedValue16(w) == low || SignedValue16(w) == low - 65536)
    ensures 0 <= Int8(b) < 256
  {
    hide Int8;
    FlipTop8(b);
    FlipTop8((w >> 8) as bv8);
    FlipTop8((w & 0xff) as bv8);
  }

  lemma Extend8Bytes(b: bv8)
    ensures var w, fill: bv8 := SignExtend8(b), if b & 0x80 != 0 then 0xff else 0;
      && (w & 0xff) as bv8 == b && ((w >> 8) & 0xff) as bv8 == fill
      && ((w >> 16) & 0xff) as bv8 == fill && (w >> 24) as bv8 == fill
      && (Sign(w) <==> b & 0x80 != 0)
  {
  }

  lemma Extend16Bytes(b: bv16)
    ensures var w, fill: bv8 := SignExtend16(b), if (b >> 8) as bv8 & 0x80 != 0 then 0xff else 0;
      && (w & 0xff) as bv8 == (b & 0xff) as bv8 && ((w >> 8) & 0xff) as bv8 == (b >> 8) as bv8
      && ((w >> 16) & 0xff) as bv8 == fill && (w >> 24) as bv8 == fill
      && (Sign(w) <==> (b >> 8) as bv8 & 0x80 != 0)
  {
  }

  lemma FillValues()
    ensures Int8(0xff) == 255 && Int8(0) == 0
  {
  }

  /** Widening keeps the number, so the narrow types sort like `int32_t`. */
  lemma SignExtend8Value(b: bv8)
    ensures SignedValue(SignExtend8(b)) == SignedValue8(b)
  {
    hide Int8, Int32, Index, SignExtend8, Sign;
    Extend8Bytes(b);
    ByteValue(SignExtend8(b));
    FillValues();
  }

  lemma SignExtend16Value(b: bv16)
    ensures SignedValue(SignExtend16(b)) == SignedValue16(b)
  {
    hide Int8, Int32, Index, SignExtend16, Sign;
    Extend16Bytes(b);
    ByteValue(SignExtend16(b));
    FillValues();
  }

  /** The recoded keys compare exactly as the signed numbers do. */
  lemma SignedKeyMonotone(x: bv32, y: bv32)
    ensures Below(SignedKey(x), SignedKey(y)) <==> SignedValue(x) < SignedValue(y)
  {
    hide Below, Value, Sign;
    BelowIsValue(SignedKey(x), SignedKey(y));
    FlipTopValue(x);
    FlipTopValue(y);
    ValueBounds(x);
    ValueBounds(y);
  }

  // ---- Float keys ----

  /** The word without its sign bit, as a number: 8 exponent bits above 23 fraction bits. */
  ghost function Magnitude(bits: bv32): nat
    ensures Magnitude(bits) < TWO31
  {
    ValueBounds(bits);
    if Sign(bits) then Value(bits) - TWO31 else Value(bits)
  }

  lemma FloatKeyValue(x: bv32)
    ensures Value(FloatKey(x)) == if Sign(x) then TWO31 - 1 - Magnitude(x) else TWO31 + Magnitude(x)
  {
    hide Value, FloatKey, Sign;
    if Sign(x) {
      FloatKeyNegative(x);
    } else {
      FloatKeyPositive(x);
    }
    FlipValue(x);
    FlipTopValue(x);
  }

  lemma FloatKeyNegative(x: bv32)
    requires Sign(x)
    ensures FloatKey(x) == x ^ 0xffff_ffff
  {
    hide Sign;
  }

  lemma FloatKeyPositive(x: bv32)
    requires !Sign(x)
    ensures FloatKey(x) == x ^ 0x8000_0000
  {
    hide Sign;
  }

  ghost function Exponent(bits: bv32): nat { Magnitude(bits) / TWO23 }

  ghost function Fraction(bits: bv32): nat { Magnitude(bits) % TWO23 }

  /** The absolute value of the float with this magnitude, in units of 2^-149. */
  ghost function Units(magnitude: nat): nat {
    var e, m := magnitude / TWO23, magnitude % TWO23;
    if e == 0 then m else (TWO23 + m) * Pow2(e - 1)
  }

  /** The value of a float in units of 2^-149; the infinities exceed every finite value. */
  ghost function FloatValue(bits: bv32): int {
    if Sign(bits) then -(Units(Magnitude(bits)) as int) else Units(Magnitude(bits))
  }

  /** Bytes as a word. */
  lemma ValueOfBytes(x: bv32, b3: bv8, b2: bv8, b1: bv8, b0: bv8)
    requires (x >> 24) as bv8 == b3 && ((x >> 16) & 0xff) as bv8 == b2 && ((x >> 8) & 0xff) as bv8 == b1 && (x & 0xff) as bv8 == b0
    ensures Value(x) == ((Int8(b3) * 256 + Int8(b2)) * 256 + Int8(b1)) * 256 + Int8(b0)
  {
    hide Int8, Int32, Index;
    ByteValue(x);
  }

  /** 1, -2, the least positive float, the greatest, and an infinity. */
  lemma KnownFloats()
    ensures FloatValue(0x3f80_0000) == Pow2(149)
    ensures FloatValue(0xc000_0000) == -(Pow2(150) as int)
    ensures FloatValue(0x0000_0001) == 1 && FloatValue(0x8000_0000) == 0
    ensures FloatValue(0x7f7f_ffff) == 0xff_ffff * Pow2(253)
    ensures !IsNaN(0x7f80_0000) && IsNaN(0x7f80_0001) && IsNaN(0xffc0_0000)
  {
    hide Pow2, Value, Index;
    ValueOfBytes(0x3f80_0000, 0x3f, 0x80, 0, 0);
    ValueOfBytes(0xc000_0000, 0xc0, 0, 0, 0);
    ValueOfBytes(0x0000_0001, 0, 0, 0, 1);
    ValueOfBytes(0x8000_0000, 0x80, 0, 0, 0);
    ValueOfBytes(0x7f7f_ffff, 0x7f, 0x7f, 0xff, 0xff);
    ValueOfBytes(0x7f80_0000, 0x7f, 0x80, 0, 0);
    ValueOfBytes(0x7f80_0001, 0x7f, 0x80, 0, 1);
    ValueOfBytes(0xffc0_0000, 0xff, 0xc0, 0, 0);
    Pow2Add(23, 126);
    Pow2Add(23, 127);
    Pow2Of23();
  }

  lemma Pow2Of23()
    ensures Pow2(23) == TWO23
  {
    assert Pow2(1) == 2 && Pow2(2) == 4 && Pow2(3) == 8 && Pow2(4) == 16;
    hide Pow2;
    Pow2Add(4, 4);
    Pow2Add(8, 8);
    Pow2Add(16, 4);
    Pow2Add(20, 3);
  }

  ghost predicate IsNaN(bits: bv32) {
    Exponent(bits) == 255 && Fraction(bits) != 0
  }

  /** The quiet bit is the first of the fraction. */
  ghost predicate IsQuiet(bits: bv32) {
    Fraction(bits) >= TWO23 / 2
  }

  lemma UnitsStep(m: nat)
    ensures Units(m) < Units(m + 1)
  {
    var e, f := m / TWO23, m % TWO23;
    assert m == e * TWO23 + f;
    if f == TWO23 - 1 {
      assert m + 1 == (e + 1) * TWO23;
      assert (m + 1) / TWO23 == e + 1 && (m + 1) % TWO23 == 0;
      if e > 0 {
        UnitsCarry(Pow2(e - 1));
        assert Pow2(e) == 2 * Pow2(e - 1);
      }
    } else {
      assert (m + 1) / TWO23 == e && (m + 1) % TWO23 == f + 1;
      if e > 0 {
        UnitsNext(f, Pow2(e - 1));
      }
    }
  }

  lemma UnitsNext(f: nat, p: nat)
    requires p > 0
    ensures (TWO23 + f) * p < (TWO23 + f + 1) * p
  {
  }

  lemma UnitsCarry(p: nat)
    requires p > 0
    ensures (TWO23 + (TWO23 - 1)) * p < TWO23 * (2 * p)
  {
  }

  /** Larger magnitudes are larger absolute values. */
  lemma {:induction false} UnitsMonotone(m: nat, n: nat)
    requires m < n
    ensures Units(m) < Units(n)
    decreases n - m
  {
    hide Units;
    UnitsStep(n - 1);
    if m < n - 1 {
      UnitsMonotone(m, n - 1);
    }
  }

  lemma UnitsCompare(m: nat, n: nat)
    ensures Units(m) < Units(n) <==> m < n
    ensures Units(m) == 0 <==> m == 0
  {
    hide Units;
    assert Units(0) == 0 by { UnitsZero(); }
    if m < n {
      UnitsMonotone(m, n);
    } else if n < m {
      UnitsMonotone(n, m);
    }
    if m > 0 {
      UnitsMonotone(0, m);
    }
  }

  lemma UnitsZero()
    ensures Units(0) == 0
  {
  }

  /**
   totalOrder of section 5.10 of IEEE 754-2019, read literally: by value, with
   -0 before +0; negative NaNs before every number and positive ones after;
   among NaNs of one sign signaling before quiet, then by payload, both reversed
   for the negative sign.
   */
  ghost predicate TotalOrder(x: bv32, y: bv32) {
    if !IsNaN(x) && !IsNaN(y) then
      FloatValue(x) < FloatValue(y) || (FloatValue(x) == FloatValue(y) && (Sign(x) || !Sign(y)))
    else if IsNaN(x) && !IsNaN(y) then Sign(x)
    else if !IsNaN(x) then !Sign(y)
    else if Sign(x) != Sign(y) then Sign(x)
    else if IsQuiet(x) != IsQuiet(y) then IsQuiet(y) != Sign(x)
    else if Sign(x) then Fraction(x) >= Fraction(y)
    else Fraction(x) <= Fraction(y)
  }

  /** The same order by sign and magnitude alone. */
  ghost predicate MagnitudeOrder(x: bv32, y: bv32) {
    if Sign(x) != Sign(y) then Sign(x)
    else if Sign(x) then Magnitude(y) <= Magnitude(x)
    else Magnitude(x) <= Magnitude(y)
  }

  lemma NaNMagnitude(x: bv32)
    ensures IsNaN(x) <==> Magnitude(x) > 255 * TWO23
    ensures Magnitude(x) == Exponent(x) * TWO23 + Fraction(x)
  {
    hide Magnitude;
  }

  lemma TotalOrderIsMagnitudeOrder(x: bv32, y: bv32)
    ensures TotalOrder(x, y) <==> MagnitudeOrder(x, y)
  {
    hide Units, Magnitude, Sign, Exponent, Fraction, IsNaN;
    NaNMagnitude(x);
    NaNMagnitude(y);
    NaNExponent(x);
    NaNExponent(y);
    UnitsCompare(Magnitude(x), Magnitude(y));
    UnitsCompare(Magnitude(y), Magnitude(x));
  }

  lemma NaNExponent(x: bv32)
    ensures IsNaN(x) ==> Exponent(x) == 255
  {
  }

  /** On every bit pattern the float keys realise totalOrder. */
  lemma FloatKeyTotalOrder(x: bv32, y: bv32)
    ensures TotalOrder(x, y) <==> !Below(FloatKey(y), FloatKey(x))
  {
    hide Below, Value, TotalOrder, FloatKey, Magnitude;
    TotalOrderIsMagnitudeOrder(x, y);
    BelowIsValue(FloatKey(y), FloatKey(x));
    FloatKeyValue(x);
    FloatKeyValue(y);
  }

  /** Away from NaNs the keys are strictly monotone, and only the zeros are told apart. */
  lemma FloatKeyMonotone(x: bv32, y: bv32)
    requires !IsNaN(x) && !IsNaN(y)
    ensures FloatValue(x) < FloatValue(y) ==> Below(FloatKey(x), FloatKey(y))
    ensures FloatValue(x) == FloatValue(y) && Sign(x) && !Sign(y) ==> Below(FloatKey(x), FloatKey(y))
  {
    hide Below, FloatKey, FloatValue, IsNaN;
    FloatKeyTotalOrder(y, x);
  }

  // ---- Sorted keys are sorted originals ----

  /** Records sorted by recoded key are sorted by the signed keys they came from. */
  lemma SignedKeysSorted<V>(s: seq<Entry<V>>, i: nat, j: nat, x: bv32, y: bv32)
    requires Sorted(KeyLess(), s) && i < j < |s|
    requires s[i].key == SignedKey(x) && s[j].key == SignedKey(y)
    ensures SignedValue(x) <= SignedValue(y)
  {
    hide Below, SignedKey, SignedValue;
    SignedKeyMonotone(y, x);
  }

  /** Records sorted by recoded key are in totalOrder of the floats they came from. */
  lemma FloatKeysSorted<V>(s: seq<Entry<V>>, i: nat, j: nat, x: bv32, y: bv32)
    requires Sorted(KeyLess(), s) && i < j < |s|
    requires s[i].key == FloatKey(x) && s[j].key == FloatKey(y)
    ensures TotalOrder(x, y)
  {
    hide Below, FloatKey, TotalOrder;
    FloatKeyTotalOrder(x, y);
  }
}

/** `hxrandom`: a 64-bit linear congruential generator. */
module Random {
  import opened PowersOfTwo

  const MULTIPLIER: nat := 0x5851_f42d_4c95_7f2d
  const INCREMENT: nat := 0x1405_7b7e_f767_814f

  /** The number of states. */
  const STATES: nat := 0x1_0000_0000_0000_0000

  /** What the full period needs of the constants. */
  predicate FullPeriod(a: int, c: int) { a % 4 == 1 && c % 2 == 1 }

  function Step(a: int, c: int, s: int): int { (a * s + c) % Pow2(64) }

  /** The state `n` draws later. */
  function Iterate(a: int, c: int, s: int, n: nat): int
    decreases n
  {
    if n == 0 then s else Iterate(a, c, Step(a, c, s), n - 1)
  }

  lemma {:induction false} IterateAdd(a: int, c: int, s: int, m: nat, n: nat)
    ensures Iterate(a, c, s, m + n) == Iterate(a, c, Iterate(a, c, s, m), n)
    decreases m
  {
    hide Step;
    if m > 0 {
      IterateAdd(a, c, Step(a, c, s), m - 1, n);
    }
  }

  lemma {:induction false} IterateRange(a: int, c: int, s: int, n: nat)
    requires 0 <= s < Pow2(64)
    ensures 0 <= Iterate(a, c, s, n) < Pow2(64)
    decreases n
  {
    if n > 0 {
      hide Pow2;
      IterateRange(a, c, Step(a, c, s), n - 1);
    }
  }

  // ---- 2^k draws at once ----

  /** `x -> a * x + c`, over the integers. */
  datatype Affine = Affine(a: int, c: int)

  function Apply(f: Affine, x: int): int { f.a * x + f.c }

  /** `2^k` steps as one affine map. */
  function Jump(a: int, c: int, k: nat): Affine {
    if k == 0 then Affine(a, c)
    else
      var f := Jump(a, c, k - 1);
      Affine(f.a * f.a, f.a * f.c + f.c)
  }

  lemma ApplyTwice(f: Affine, x: int)
    ensures Apply(f, Apply(f, x)) == Apply(Affine(f.a * f.a, f.a * f.c + f.c), x)
  {
    var a, c := f.a, f.c;
    assert a * (a * x + c) == a * (a * x) + a * c by { MulDistributes(a * x, c, a); }
    MulAssociates(a, a, x);
  }

  lemma {:induction false} JumpIterates(a: int, c: int, s: int, k: nat)
    ensures Same(Iterate(a, c, s, Pow2(k)), Apply(Jump(a, c, k), s), 64)
    decreases k
  {
    hide Same, Apply, Step, Pow2, Iterate;
    if k == 0 {
      IterateOnce(a, c, s);
      StepIsApply(a, c, s);
    } else {
      PowSteps(k - 1);
      var f := Jump(a, c, k - 1);
      var n := Pow2(k - 1);
      var u := Iterate(a, c, s, n);
      IterateAdd(a, c, s, n, n);
      JumpIterates(a, c, s, k - 1);
      JumpIterates(a, c, u, k - 1);
      ApplySame(f, u, Apply(f, s), 64);
      ApplyTwice(f, s);
      SameTrans(Iterate(a, c, u, n), Apply(f, u), Apply(f, Apply(f, s)), 64);
    }
  }

  lemma IterateOnce(a: int, c: int, s: int)
    ensures Pow2(0) == 1 && Iterate(a, c, s, 1) == Step(a, c, s)
  {
    hide Step;
    assert Iterate(a, c, Step(a, c, s), 0) == Step(a, c, s);
  }

  lemma SameTrans(x: int, y: int, z: int, k: nat)
    requires Same(x, y, k) && Same(y, z, k)
    ensures Same(x, z, k) && Same(z, x, k)
  {
  }

  lemma StepIsApply(a: int, c: int, s: int)
    ensures Same(Step(a, c, s), Apply(Affine(a, c), s), 64)
  {
    hide Pow2;
    var x, m := a * s + c, Pow2(64);
    RemainderIs(x % m, m, 0, x % m);
  }

  lemma ApplySame(f: Affine, x: int, y: int, k: nat)
    requires Same(x, y, k)
    ensures Same(Apply(f, x), Apply(f, y), k)
  {
    hide Same;
    SameMul(f.a, x, y, k);
    SameAdd(f.a * x, f.a * y, f.c, k);
  }

  /** The multiplier of the jump is 1 modulo `2^(k + 2)` and its increment an odd multiple of `2^k`. */
  lemma {:induction false} JumpShape(a: int, c: int, k: nat) returns (m: int, o: int)
    requires FullPeriod(a, c)
    ensures Jump(a, c, k).a == 1 + Pow2(k + 2) * m
    ensures Jump(a, c, k).c == Pow2(k) * (2 * o + 1)
  {
    if k == 0 {
      m, o := a / 4, c / 2;
      assert Pow2(2) == 2 * Pow2(1) == 4 * Pow2(0);
    } else {
      hide Pow2;
      var m0, o0 := JumpShape(a, c, k - 1);
      var p := Pow2(k - 1);
      PowSteps(k - 1);
      var q := 2 * p;
      m := m0 + q * (m0 * m0);
      o := o0 + (2 * o0 + 1) * (p * m0);
      SquareShape(q, m0);
      OddShape(p, m0, o0);
    }
  }

  lemma PowSteps(k: nat)
    ensures Pow2(k + 1) == 2 * Pow2(k) && Pow2(k + 2) == 4 * Pow2(k) && Pow2(k + 3) == 8 * Pow2(k)
  {
    assert Pow2(k + 3) == 2 * Pow2(k + 2) && Pow2(k + 2) == 2 * Pow2(k + 1);
  }

  lemma SquareShape(q: int, m: int)
    ensures (1 + 2 * q * m) * (1 + 2 * q * m) == 1 + 4 * q * (m + q * (m * m))
  {
    var t := q * m;
    assert q * (m + q * (m * m)) == t + t * t by {
      MulDistributes(m, q * (m * m), q);
      assert q * (q * (m * m)) == (q * m) * (q * m);
    }
  }

  lemma OddShape(p: int, m: int, o: int)
    ensures (1 + 4 * p * m) * (p * (2 * o + 1)) + p * (2 * o + 1) == 2 * p * (2 * (o + (2 * o + 1) * (p * m)) + 1)
  {
    var t, w := p * m, 2 * o + 1;
    var x := p * w;
    assert (1 + 4 * t) * x + x == 2 * x + 4 * (t * x);
    assert 2 * p * (2 * (o + w * t) + 1) == 2 * x + 4 * (p * (w * t)) by {
      assert 2 * (o + w * t) + 1 == w + 2 * (w * t);
      MulDistributes(w, 2 * (w * t), p);
    }
    assert t * x == p * (w * t) by {
      MulAssociates(p, w, t);
    }
  }

  /** `2^k` draws add `2^k`, as far as the low `k + 1` bits show. */
  lemma JumpAdds(a: int, c: int, s: int, k: nat)
    requires FullPeriod(a, c) && k < 64
    ensures Same(Iterate(a, c, s, Pow2(k)), s + Pow2(k), k + 1)
  {
    hide Same, Pow2;
    JumpIterates(a, c, s, k);
    var f := Jump(a, c, k);
    SameLower(Iterate(a, c, s, Pow2(k)), Apply(f, s), k + 1, 64);
    var m, o := JumpShape(a, c, k);
    PowSteps(k);
    ApplyShape(f, s, Pow2(k), m, o);
    SameShift(s + Pow2(k), 2 * (m * s) + o, k + 1);
    SameTrans(Iterate(a, c, s, Pow2(k)), Apply(f, s), s + Pow2(k), k + 1);
  }

  lemma ApplyShape(f: Affine, s: int, p: int, m: int, o: int)
    requires f.a == 1 + 4 * p * m && f.c == p * (2 * o + 1)
    ensures Apply(f, s) == s + p + (2 * (m * s) + o) * (2 * p)
  {
    assert 4 * p * m * s == 4 * (p * (m * s)) by {
      MulAssociates(p, m, s);
    }
    assert (1 + 4 * p * m) * s == s + 4 * (p * m) * s;
  }

  lemma {:induction false} JumpMany(a: int, c: int, s: int, k: nat, q: nat)
    requires FullPeriod(a, c) && k < 64
    ensures Same(Iterate(a, c, s, q * Pow2(k)), s + q * Pow2(k), k + 1)
  {
    hide Same, Pow2;
    if q == 0 {
      SameRefl(s, k + 1);
    } else {
      var n, p := (q - 1) * Pow2(k), Pow2(k);
      NotNegative(q - 1, p);
      MulDistributes(q - 1, 1, p);
      JumpMany(a, c, s, k, q - 1);
      var u := Iterate(a, c, s, n);
      IterateAdd(a, c, s, n, p);
      JumpAdds(a, c, u, k);
      SameAdd(u, s + n, p, k + 1);
      SameTrans(Iterate(a, c, u, p), u + p, s + n + p, k + 1);
    }
  }

  lemma SameRefl(x: int, k: nat)
    ensures Same(x, x, k)
  {
  }

  // ---- The period ----

  lemma LowBitsReturn(a: int, c: int, s: int, k: nat, n: nat)
    requires FullPeriod(a, c) && k <= 64 && n % Pow2(k) == 0
    ensures Same(Iterate(a, c, s, n), s, k)
  {
    hide Same, Pow2, Iterate;
    if k == 0 {
      SameAny(Iterate(a, c, s, n), s);
    } else {
      var q, p := n / Pow2(k), Pow2(k - 1);
      PowSteps(k - 1);
      WholeQuotient(n, Pow2(k));
      EvenMultiple(q, p);
      JumpMany(a, c, s, k - 1, 2 * q);
      SameShift(s, q, k);
      SameTrans(Iterate(a, c, s, n), s + n, s, k);
    }
  }

  lemma LowBitsDiffer(a: int, c: int, s: int, k: nat, n: nat)
    requires FullPeriod(a, c) && k <= 64 && n % Pow2(k) != 0
    ensures !Same(Iterate(a, c, s, n), s, k)
  {
    hide Same, Pow2, Iterate;
    var j, q := OddPart(n, k);
    var p, u := Pow2(j), Iterate(a, c, s, n);
    JumpMany(a, c, s, j, 2 * q + 1);
    PowSteps(j);
    OddMultiple(q, p);
    SameShift(s + p, q, j + 1);
    HalfDiffers(s, j);
    if Same(u, s, k) {
      SameLower(u, s, j + 1, k);
      SameBoth(u, s, s + n, s + p, j + 1);
    }
  }

  /** The low `k` bits come back exactly every `2^k` draws. */
  lemma LowBitsPeriod(a: int, c: int, s: int, k: nat, n: nat)
    requires FullPeriod(a, c) && k <= 64
    ensures Same(Iterate(a, c, s, n), s, k) <==> n % Pow2(k) == 0
  {
    hide Same, Pow2, Iterate;
    if n % Pow2(k) == 0 {
      LowBitsReturn(a, c, s, k, n);
    } else {
      LowBitsDiffer(a, c, s, k, n);
    }
  }

  lemma WholeQuotient(n: nat, m: nat)
    requires m > 0 && n % m == 0
    ensures n == n / m * m
  {
  }

  lemma EvenMultiple(q: int, p: int)
    ensures q * (2 * p) == (2 * q) * p
  {
  }

  lemma OddMultiple(q: int, p: int)
    ensures (2 * q + 1) * p == p + q * (2 * p)
  {
  }

  lemma SameAny(x: int, y: int)
    ensures Same(x, y, 0)
  {
  }

  lemma SameBoth(u: int, x: int, y: int, z: int, k: nat)
    requires Same(u, x, k) && Same(u, y, k) && Same(y, z, k)
    ensures Same(z, x, k)
  {
  }

  /** Two runs from one seed meet exactly when the draws differ by a multiple of `2^64`. */
  lemma Period(a: int, c: int, s: int, m: nat, n: nat)
    requires FullPeriod(a, c) && m <= n
    ensures Same(Iterate(a, c, s, m), Iterate(a, c, s, n), 64) <==> (n - m) % Pow2(64) == 0
  {
    hide Same, Pow2;
    IterateAdd(a, c, s, m, n - m);
    LowBitsPeriod(a, c, Iterate(a, c, s, m), 64, n - m);
    SameSwap(Iterate(a, c, s, m), Iterate(a, c, s, n), 64);
  }

  lemma SameSwap(x: int, y: int, k: nat)
    ensures Same(x, y, k) <==> Same(y, x, k)
  {
  }

  /** States are 64 bits, so congruence is equality. */
  lemma SameState(x: int, y: int)
    requires 0 <= x < Pow2(64) && 0 <= y < Pow2(64)
    ensures Same(x, y, 64) <==> x == y
  {
    hide Pow2;
    RemainderIs(x, Pow2(64), 0, x);
    RemainderIs(y, Pow2(64), 0, y);
  }

  // ---- Every state is reached ----

  /** A state that agrees with `t` in its low `k` bits is less than `2^k` draws away. */
  lemma {:induction false} LowBitsReached(a: int, c: int, s: int, t: int, k: nat) returns (n: nat)
    requires FullPeriod(a, c) && k <= 64
    ensures n < Pow2(k) && Same(Iterate(a, c, s, n), t, k)
  {
    if k == 0 {
      n := 0;
      SameAny(s, t);
    } else {
      hide Same, Pow2;
      n := LowBitsReached(a, c, s, t, k - 1);
      PowSteps(k - 1);
      var u := Iterate(a, c, s, n);
      SameOrHalf(u, t, k - 1);
      if !Same(u, t, k) {
        IterateAdd(a, c, s, n, Pow2(k - 1));
        JumpAdds(a, c, u, k - 1);
        SameTrans(Iterate(a, c, u, Pow2(k - 1)), u + Pow2(k - 1), t, k);
        n := n + Pow2(k - 1);
      }
    }
  }

  // ---- The generator ----

  lemma Nibble()
    ensures Pow2(3) == 8 && Pow2(4) == 16
  {
    PowSteps(0);
    PowSteps(1);
  }

  lemma StatesIsPow2()
    ensures STATES == Pow2(64)
  {
    hide Pow2;
    Nibble();
    Pow2Add(4, 4);
    Pow2Add(8, 8);
    Pow2Add(16, 16);
    Pow2Add(32, 32);
  }

  /** The state after `n` draws from `seed`. */
  function After(seed: nat, n: nat): (s: nat)
    requires seed < STATES
    ensures s < STATES
  {
    StatesIsPow2();
    IterateRange(MULTIPLIER, INCREMENT, seed, n);
    Iterate(MULTIPLIER, INCREMENT, seed, n)
  }

  /** The period is 2^64: a state comes back after a multiple of 2^64 draws and not before. */
  lemma PeriodIsExact(seed: nat, m: nat, n: nat)
    requires seed < STATES && m <= n
    ensures After(seed, m) == After(seed, n) <==> (n - m) % STATES == 0
  {
    hide Pow2, Same, Iterate;
    StatesIsPow2();
    Period(MULTIPLIER, INCREMENT, seed, m, n);
    IterateRange(MULTIPLIER, INCREMENT, seed, m);
    IterateRange(MULTIPLIER, INCREMENT, seed, n);
    SameState(After(seed, m), After(seed, n));
  }

  /** Every state is reached from every seed, by one number of draws below 2^64. */
  lemma EveryStateReached(seed: nat, target: nat) returns (n: nat)
    requires seed < STATES && target < STATES
    ensures n < STATES && After(seed, n) == target
    ensures forall m: nat :: m < STATES && After(seed, m) == target ==> m == n
  {
    hide Pow2, Same, Iterate;
    StatesIsPow2();
    n := LowBitsReached(MULTIPLIER, INCREMENT, seed, target, 64);
    IterateRange(MULTIPLIER, INCREMENT, seed, n);
    SameState(After(seed, n), target);
    forall m: nat | m < STATES && After(seed, m) == target ensures m == n {
      PeriodIsExact(seed, if m < n then m else n, if m < n then n else m);
    }
  }

  /** The output: 32 bits from a place chosen by the top four. */
  function Output(state: nat): (r: nat)
    ensures r < 0x1_0000_0000
  {
    (state / Pow2(state / 0x1000_0000_0000_0000 + 13)) % 0x1_0000_0000
  }

  /** The low 13 bits, the worst of a linear congruential generator, are never seen. */
  lemma OutputDropsLow(state: nat)
    requires state < STATES
    ensures Output(state) == Output(state - state % 0x2000)
  {
    hide Pow2;
    var c := state / 0x1000_0000_0000_0000;
    ThirteenBits();
    DropLow(state, 0x2000, 0x8000_0000_0000);
    Pow2Add(13, c);
    DropLow(state, 0x2000, Pow2(c));
  }

  lemma ThirteenBits()
    ensures Pow2(13) == 0x2000
  {
    hide Pow2;
    Nibble();
    PowSteps(3);
    Pow2Add(5, 5);
    Pow2Add(10, 3);
  }

  /** The top four bits choose the place and are themselves never returned. */
  lemma OutputDropsControl(state: nat)
    requires state < STATES
    ensures var c := state / 0x1000_0000_0000_0000;
      c < 16 && Output(state) == state % 0x1000_0000_0000_0000 / Pow2(c + 13) % 0x1_0000_0000
  {
    hide Pow2, Same;
    var c, low := state / 0x1000_0000_0000_0000, state % 0x1000_0000_0000_0000;
    var d := Pow2(c + 13);
    StatesIsPow2();
    Pow2Add(60, 4);
    FourBits();
    Pow2Add(47 - c, c + 13);
    var q := c * Pow2(47 - c);
    MulAssociates(c, Pow2(47 - c), d);
    MulDistributes(q, low / d, d);
    RemainderIs(state, d, q + low / d, low % d);
    Pow2Add(15 - c, 32);
    MulAssociates(c, Pow2(15 - c), Pow2(32));
    SameShift(low / d, c * Pow2(15 - c), 32);
    SameMod(low / d + q, low / d);
  }

  lemma FourBits()
    ensures Pow2(4) == 16 && Pow2(32) == 0x1_0000_0000 && Pow2(60) == 0x1000_0000_0000_0000
  {
    hide Pow2;
    Nibble();
    Pow2Add(4, 4);
    Pow2Add(8, 8);
    Pow2Add(16, 16);
    Pow2Add(32, 16);
    Pow2Add(48, 8);
    Pow2Add(56, 4);
  }

  lemma SameMod(x: int, y: int)
    requires Same(x, y, 32)
    ensures x % 0x1_0000_0000 == y % 0x1_0000_0000
  {
    hide Pow2;
    FourBits();
  }

  /** The first draw from the default stream, 31. */
  lemma FirstDraw()
    ensures After(31, 1) == 0xc5f2_0cfb_3d81_e7c2 && Output(After(31, 1)) == 0xf906_7d9e
  {
    hide Pow2;
    StatesIsPow2();
    IterateOnce(MULTIPLIER, INCREMENT, 31);
    assert (MULTIPLIER * 31 + INCREMENT) % STATES == 0xc5f2_0cfb_3d81_e7c2;
    PowSmall();
  }

  lemma PowSmall()
    ensures Pow2(25) == 33554432
  {
    hide Pow2;
    ThirteenBits();
    PowSteps(12);
    Pow2Add(13, 12);
  }

  /** Two draws of 32 bits as one of 64. */
  function Halves(first: nat, second: nat, lowFirst: bool): nat {
    if lowFirst then second * 0x1_0000_0000 + first else first * 0x1_0000_0000 + second
  }

  /** Both draws come back, each in the half that the order gives it. */
  lemma HalvesParts(first: nat, second: nat, lowFirst: bool)
    requires first < 0x1_0000_0000 && second < 0x1_0000_0000
    ensures var r := Halves(first, second, lowFirst);
      && r < STATES
      && r % 0x1_0000_0000 == (if lowFirst then first else second)
      && r / 0x1_0000_0000 == (if lowFirst then second else first)
  {
  }

  class Generator {
    var state: nat
    ghost const seed: nat
    ghost var draws: nat

    ghost predicate Valid()
      reads this
    {
      seed < STATES && state < STATES && state == After(seed, draws)
    }

    constructor (stream: nat)
      requires stream < STATES
      ensures Valid() && seed == stream && draws == 0 && state == stream
    {
      state, seed, draws := stream, stream, 0;
    }

    method U32() returns (r: nat)
      requires Valid()
      modifies this
      ensures Valid() && draws == old(draws) + 1
      ensures r == Output(state) && r < 0x1_0000_0000
      ensures state == (0x5851_f42d_4c95_7f2d * old(state) + 0x1405_7b7e_f767_814f) % 0x1_0000_0000_0000_0000
    {
      hide Pow2, Iterate;
      StatesIsPow2();
      IterateAdd(MULTIPLIER, INCREMENT, seed, draws, 1);
      IterateOnce(MULTIPLIER, INCREMENT, state);
      state := (MULTIPLIER * state + INCREMENT) % STATES;
      draws := draws + 1;
      r := (state / Pow2(state / 0x1000_0000_0000_0000 + 13)) % 0x1_0000_0000;
    }

    /** The order in which the operands of `|` are evaluated is not specified. */
    method U64(lowFirst: bool) returns (r: nat)
      requires Valid()
      modifies this
      ensures Valid() && draws == old(draws) + 2 && r < STATES
      ensures r == Halves(Output(After(seed, old(draws) + 1)), Output(After(seed, draws)), lowFirst)
      ensures var first, second := Output(After(seed, old(draws) + 1)), Output(After(seed, draws));
        && r % 0x1_0000_0000 == (if lowFirst then first else second)
        && r / 0x1_0000_0000 == (if lowFirst then second else first)
    {
      hide Pow2, Iterate, Output;
      var first := U32();
      var second := U32();
      HalvesParts(first, second, lowFirst);
      r := Halves(first, second, lowFirst);
    }

    /** `range(uint64_t, uint64_t)`. */
    method Range(base: nat, size: nat, lowFirst: bool) returns (r: nat)
      requires Valid() && 0 < size && base + size <= STATES
      modifies this
      ensures Valid() && draws == old(draws) + 2
      ensures base <= r < base + size
      ensures r == base + Halves(Output(After(seed, old(draws) + 1)), Output(After(seed, draws)), lowFirst) % size
    {
      var u := U64(lowFirst);
      r := base + u % size;
    }
  }
}

/** Congruence modulo a power of two. */
module PowersOfTwo {

  function Pow2(k: nat): (p: nat)
    ensures p > 0
  {
    if k == 0 then 1 else 2 * Pow2(k - 1)
  }

  lemma Pow2Next(k: nat)
    ensures Pow2(k + 1) == 2 * Pow2(k)
  {
  }

  lemma {:induction false} Pow2Add(j: nat, k: nat)
    ensures Pow2(j + k) == Pow2(j) * Pow2(k)
  {
    if k > 0 {
      Pow2Add(j, k - 1);
      MulDouble(Pow2(j), Pow2(k - 1));
    }
  }

  lemma MulDouble(x: int, y: int)
    ensures x * (2 * y) == 2 * (x * y)
  {
  }

  lemma MulDistributes(x: int, y: int, z: int)
    ensures (x + y) * z == x * z + y * z
  {
  }

  lemma MulAssociates(x: int, y: int, z: int)
    ensures x * (y * z) == (x * y) * z
  {
  }

  /** Division with remainder is unique. */
  lemma RemainderIs(x: int, m: int, q: int, r: int)
    requires 0 <= r < m && x == q * m + r
    ensures x % m == r && x / m == q
  {
    var d := x / m - q;
    assert d * m == r - x % m by { MulDistributes(x / m, -q, m); }
    if d > 0 {
      AtLeast(d, m);
    } else if d < 0 {
      AtLeast(-d, m);
    }
  }

  /** Dropping `r` below a divisor of `m` does not change the quotient by `m`. */
  lemma DropLow(x: nat, d: nat, e: nat)
    requires d > 0 && e > 0
    ensures d * e > 0 && x / (d * e) == (x - x % d) / (d * e)
  {
    var t, r := x / d, x % d;
    var w, v := t / e, t % e;
    AtLeast(d, e);
    MulDistributes(e * w, v, d);
    assert x == w * (d * e) + (d * v + r) by {
      MulAssociates(d, e, w);
      assert d * (e * w + v) == d * (e * w) + d * v;
    }
    assert d * v + r < d * e by {
      if v + 1 < e {
        AtLeast(e - v - 1, d);
        MulDistributes(e - v - 1, v + 1, d);
      }
      MulDistributes(v, 1, d);
    }
    assert d * v >= 0 by { NotNegative(d, v); }
    RemainderIs(x, d * e, w, d * v + r);
    RemainderIs(x - r, d * e, w, d * v);
  }

  lemma AtLeast(d: int, m: int)
    requires d > 0 && m > 0
    ensures d * m >= m
    ensures -d * m <= -m
  {
    MulDistributes(d - 1, 1, m);
    NotNegative(d - 1, m);
  }

  lemma NotNegative(x: int, y: int)
    requires x >= 0 && y >= 0
    ensures x * y >= 0
  {
  }

  /** `x` and `y` have the same low `k` bits. */
  predicate Same(x: int, y: int, k: nat) { x % Pow2(k) == y % Pow2(k) }

  lemma SameShift(x: int, q: int, k: nat)
    ensures Same(x + q * Pow2(k), x, k)
  {
    var m := Pow2(k);
    MulDistributes(x / m, q, m);
    RemainderIs(x + q * m, m, x / m + q, x % m);
  }

  /** The difference of two congruent numbers, as a multiple. */
  lemma SameDifference(x: int, y: int, k: nat) returns (q: int)
    requires Same(x, y, k)
    ensures x == y + q * Pow2(k)
  {
    var m := Pow2(k);
    q := x / m - y / m;
    MulDistributes(x / m, -(y / m), m);
  }

  lemma SameLower(x: int, y: int, j: nat, k: nat)
    requires j <= k && Same(x, y, k)
    ensures Same(x, y, j)
  {
    hide Same, Pow2;
    var q := SameDifference(x, y, k);
    Pow2Add(j, k - j);
    MulAssociates(q, Pow2(k - j), Pow2(j));
    SameShift(y, q * Pow2(k - j), j);
  }

  lemma SameAdd(x: int, y: int, z: int, k: nat)
    requires Same(x, y, k)
    ensures Same(x + z, y + z, k)
  {
    hide Same;
    var q := SameDifference(x, y, k);
    SameShift(y + z, q, k);
  }

  lemma MulOffset(a: int, y: int, q: int, m: int)
    ensures a * (y + q * m) == a * y + (a * q) * m
  {
    MulAssociates(a, q, m);
    MulDistributes(y, q * m, a);
  }

  lemma SameMul(a: int, x: int, y: int, k: nat)
    requires Same(x, y, k)
    ensures Same(a * x, a * y, k)
  {
    hide *;
    var q := SameDifference(x, y, k);
    MulOffset(a, y, q, Pow2(k));
    SameShift(a * y, a * q, k);
  }

  /** One bit more: the next bit agrees or it does not. */
  lemma SameOrHalf(x: int, y: int, k: nat)
    requires Same(x, y, k)
    ensures Same(x, y, k + 1) || Same(x + Pow2(k), y, k + 1)
  {
    hide Same;
    var q := SameDifference(x, y, k);
    var p := Pow2(k);
    var h := q / 2;
    if q % 2 == 0 {
      MulAssociates(h, 2, p);
      SameShift(y, h, k + 1);
    } else {
      MulDistributes(2 * h, 1, p);
      MulAssociates(h, 2, p);
      MulDistributes(h, 1, 2 * p);
      SameShift(y, h + 1, k + 1);
    }
  }

  lemma HalfDiffers(x: int, k: nat)
    ensures !Same(x + Pow2(k), x, k + 1)
  {
    if Same(x + Pow2(k), x, k + 1) {
      var q := SameDifference(x + Pow2(k), x, k + 1);
      MulAssociates(q, 2, Pow2(k));
      var d := 2 * q - 1;
      MulDistributes(2 * q, -1, Pow2(k));
      if d > 0 {
        AtLeast(d, Pow2(k));
      } else {
        AtLeast(-d, Pow2(k));
      }
    }
  }

  /** A number that is not a multiple of `2^k` is an odd multiple of a smaller power. */
  lemma {:induction false} OddPart(n: nat, k: nat) returns (j: nat, q: nat)
    requires n % Pow2(k) != 0
    ensures j < k && n == (2 * q + 1) * Pow2(j)
  {
    if k > 0 && n % Pow2(k - 1) != 0 {
      j, q := OddPart(n, k - 1);
    } else if k == 0 {
      RemainderIs(n, 1, n, 0);
    } else {
      j := k - 1;
      q := n / Pow2(j) / 2;
      OddQuotient(n, Pow2(j));
    }
  }

  lemma OddQuotient(n: nat, p: nat)
    requires p > 0 && n % p == 0 && n % (2 * p) != 0
    ensures n == (2 * (n / p / 2) + 1) * p
  {
    var d := n / p;
    assert n == d * p;
    var q := d / 2;
    if d % 2 == 0 {
      MulAssociates(q, 2, p);
      RemainderIs(n, 2 * p, q, 0);
    }
  }
}

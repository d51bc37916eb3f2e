/** Logarithms and the level counts of a binary heap, for the comparison bounds. */
module HeapLevels {
  import PowersOfTwo

  /** The exponent of the largest power of two not above `n`; 0 for 0. */
  function Log2(n: nat): (r: nat) {
    if n < 2 then 0 else 1 + Log2(n / 2)
  }

  /** `n` lies between two powers of two, of which it is the lower exponent. */
  lemma {:induction false} Log2Exact(n: nat)
    requires n > 0
    ensures PowersOfTwo.Pow2(Log2(n)) <= n < PowersOfTwo.Pow2(Log2(n) + 1)
  {
    if n > 1 {
      Log2Exact(n / 2);
    }
  }

  lemma {:induction false} Log2Monotone(m: nat, n: nat)
    requires m <= n
    ensures Log2(m) <= Log2(n)
  {
    if 2 <= m {
      Log2Monotone(m / 2, n / 2);
    }
  }

  lemma MulMonotone(a: nat, b: nat, c: nat)
    requires a <= b
    ensures a * c <= b * c
  {
    var d := b - a;
    assert b * c == (a + d) * c == a * c + d * c;
    assert d * c >= 0;
  }

  lemma MulStep(a: nat, b: nat, c: nat)
    requires a < b
    ensures a * c + c <= b * c
  {
    MulMonotone(a + 1, b, c);
    assert (a + 1) * c == a * c + c;
  }

  lemma QuotientUnique(n: nat, j: nat, q: nat, r: nat)
    requires 0 < j && r < j && n == q * j + r
    ensures n / j == q
  {
    var q', r' := n / j, n % j;
    assert n == q' * j + r' && 0 <= r' < j;
    if q' < q {
      MulStep(q', q, j);
    } else if q < q' {
      MulStep(q, q', j);
    }
  }

  /** Division rounds down. */
  lemma QuotientBound(n: nat, j: nat, q: nat)
    requires 0 < j
    ensures q * j <= n <==> q <= n / j
  {
    var p := n / j;
    assert n == p * j + n % j;
    if p < q {
      MulStep(p, q, j);
    } else {
      MulMonotone(q, p, j);
    }
  }

  lemma QuotientAntitone(n: nat, i: nat, j: nat)
    requires 0 < i <= j
    ensures n / j <= n / i
  {
    var q := n / j;
    QuotientBound(n, j, q);
    QuotientBound(n, i, q);
    MulMonotone(i, j, q);
    assert q * i == i * q && q * j == j * q;
  }

  /** The levels below node `j`, counting nodes from 1, in a heap of `n`. */
  ghost function Levels(n: nat, j: nat): nat
    requires 0 < j
  {
    Log2(n / j)
  }

  lemma LevelDown(n: nat, j: nat, child: nat)
    requires 0 < j && 2 * j <= child <= n
    ensures Levels(n, child) + 1 <= Levels(n, j)
  {
    QuotientAntitone(n, 2 * j, child);
    QuotientBound(n, j, 2);
    HalveQuotient(n, j);
    Log2Monotone(n / child, n / j / 2);
  }

  lemma HalveQuotient(n: nat, j: nat)
    requires 0 < j
    ensures n / (2 * j) == n / j / 2
  {
    var q, r := n / j, n % j;
    assert n == q * j + r;
    var q2, r2 := q / 2, q % 2;
    assert n == q2 * (2 * j) + (r2 * j + r);
    QuotientUnique(n, 2 * j, q2, r2 * j + r);
  }

  lemma DivideTwice(n: nat, j: nat)
    requires 0 < j
    ensures n / 2 / j == n / j / 2
  {
    HalveQuotient(n, j);
    var q, r := n / (2 * j), n % (2 * j);
    assert q * (2 * j) == 2 * (q * j);
    HalfOf(n, q * j, r);
    QuotientUnique(n / 2, j, q, r / 2);
  }

  lemma HalfOf(n: nat, m: nat, r: nat)
    requires n == 2 * m + r
    ensures n / 2 == m + r / 2
  {
  }

  ghost function LevelSum(n: nat, i: nat, h: nat): nat
    decreases h - i
  {
    if h <= i then 0 else Levels(n, i + 1) + LevelSum(n, i + 1, h)
  }

  lemma LevelSumEmpty(n: nat, h: nat)
    ensures LevelSum(n, h, h) == 0
  {
  }

  lemma LevelSumNext(n: nat, i: nat, h: nat)
    requires i < h
    ensures LevelSum(n, i, h) == Levels(n, i + 1) + LevelSum(n, i + 1, h)
  {
  }

  lemma {:induction false} LevelSumHalves(n: nat, i: nat, h: nat)
    requires i <= h <= n / 2
    ensures LevelSum(n, i, h) == (h - i) + LevelSum(n / 2, i, h)
    decreases h - i
  {
    if i < h {
      LevelSumHalves(n, i + 1, h);
      DivideTwice(n, i + 1);
      QuotientBound(n, i + 1, 2);
    }
  }

  lemma {:induction false} LevelSumLeaves(n: nat, i: nat, h: nat)
    requires n / 2 <= i <= h
    ensures LevelSum(n, i, h) == 0
    decreases h - i
  {
    if i < h {
      LevelSumLeaves(n, i + 1, h);
      QuotientBound(n, i + 1, 2);
    }
  }

  lemma {:induction false} LevelSumSplit(n: nat, i: nat, k: nat, h: nat)
    requires i <= k <= h
    ensures LevelSum(n, i, h) == LevelSum(n, i, k) + LevelSum(n, k, h)
    decreases k - i
  {
    if i < k {
      LevelSumSplit(n, i + 1, k, h);
    }
  }

  /** The levels below all inner nodes add up to no more than the heap's size. */
  lemma {:induction false} LevelSumLinear(n: nat)
    ensures LevelSum(n, 0, n / 2) <= n
  {
    if 2 <= n {
      var m := n / 2;
      LevelSumHalves(n, 0, m);
      LevelSumSplit(m, 0, m / 2, m);
      LevelSumLeaves(m, m / 2, m);
      LevelSumLinear(m);
    }
  }
}

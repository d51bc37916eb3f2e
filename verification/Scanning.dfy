/** Looking for a byte, as `memchr` does. */
module Scanning {

  /** Where `c` first occurs at or after `i`, or the end. */
  function Find<T(==)>(s: seq<T>, c: T, i: nat): (k: nat)
    requires i <= |s|
    ensures i <= k <= |s| && c !in s[i..k] && (k < |s| ==> s[k] == c)
    decreases |s| - i
  {
    if i == |s| || s[i] == c then i
    else
      var k := Find(s, c, i + 1);
      assert s[i..k] == [s[i]] + s[i + 1..k];
      k
  }

  /** The position is determined by what it promises. */
  lemma {:induction false} FindIs<T>(s: seq<T>, c: T, i: nat, k: nat)
    requires i <= k <= |s| && c !in s[i..k] && (k < |s| ==> s[k] == c)
    ensures Find(s, c, i) == k
    decreases k - i
  {
    if i < k {
      assert s[i..k] == [s[i]] + s[i + 1..k];
      FindIs(s, c, i + 1, k);
    }
  }

  lemma {:induction false} FindAtLeast<T>(s: seq<T>, c: T, i: nat, n: nat)
    requires i <= n <= |s| && c !in s[i..n]
    ensures n <= Find(s, c, i)
    decreases n - i
  {
    if i < n {
      assert s[i..n] == [s[i]] + s[i + 1..n];
      FindAtLeast(s, c, i + 1, n);
    }
  }

  lemma {:induction false} FindInSuffix<T>(s: seq<T>, c: T, i: nat, j: nat)
    requires i + j <= |s|
    ensures i + Find(s[i..], c, j) == Find(s, c, i + j)
    decreases |s| - j
  {
    if i + j < |s| && s[i + j] != c {
      FindInSuffix(s, c, i, j + 1);
    }
  }

  /** `memchr` from `i` on, with the end for a null pointer. */
  method MemChr<T(==)>(s: seq<T>, c: T, i: nat) returns (k: nat)
    requires i <= |s|
    ensures k == Find(s, c, i)
  {
    k := i;
    while k < |s| && s[k] != c
      invariant i <= k <= |s| && Find(s, c, i) == Find(s, c, k)
    {
      k := k + 1;
    }
  }

  /** The same within a buffer, with `end` for a null pointer. */
  method MemChrIn<T(==)>(buffer: array<T>, c: T, begin: nat, end: nat) returns (k: nat)
    requires begin <= end <= buffer.Length
    ensures k == Find(buffer[..end], c, begin)
    ensures begin <= k <= end && c !in buffer[begin..k] && (k < end ==> buffer[k] == c)
  {
    k := begin;
    while k < end && buffer[k] != c
      invariant begin <= k <= end && Find(buffer[..end], c, begin) == Find(buffer[..end], c, k)
    {
      k := k + 1;
    }
    assert buffer[..end][begin..k] == buffer[begin..k];
  }
}

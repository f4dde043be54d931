/** Fixed-width integers and the few facts about `%` that the index arithmetic rests on. */
module Words {
  const TWO_32: nat := 0x1_0000_0000
  const TWO_64: nat := 0x1_0000_0000_0000_0000

  type u32 = x: int | 0 <= x < 0x1_0000_0000
  type u64 = x: int | 0 <= x < 0x1_0000_0000_0000_0000

  function Min(a: int, b: int): int {
    if a < b then a else b
  }

  function Max(a: int, b: int): int {
    if a < b then b else a
  }

  lemma SmallMultiple(d: int, n: int)
    requires 0 < n
    ensures -n < d * n < n ==> d == 0
  {
    if d >= 1 {
      assert d * n >= n;
    } else if d <= -1 {
      assert d * n <= -n;
    }
  }

  /** Numbers less than n apart share a residue only when they are equal. */
  lemma ModInjective(a: int, b: int, n: int)
    requires 0 < n && -n < a - b < n
    ensures a % n == b % n ==> a == b
  {
    var d := a / n - b / n;
    assert a == (a / n) * n + a % n && b == (b / n) * n + b % n;
    assert d * n == (a - b) - (a % n - b % n);
    SmallMultiple(d, n);
  }

  /** A representation `x == q * n + r` with a remainder in range is the division of x by n. */
  lemma ModUnique(x: int, q: int, r: int, n: int)
    requires 0 < n && 0 <= r < n
    requires x == q * n + r
    ensures x % n == r
  {
    var d := q - x / n;
    assert x == (x / n) * n + x % n;
    assert d * n == x % n - r;
    SmallMultiple(d, n);
  }

  lemma ModAdd(x: int, k: int, n: int)
    requires 0 < n
    ensures (x + k * n) % n == x % n
  {
    assert x + k * n == (x / n + k) * n + x % n;
    ModUnique(x + k * n, x / n + k, x % n, n);
  }

  /** Stepping by one wraps exactly at n - 1. */
  lemma ModSucc(x: int, n: int)
    requires 0 < n
    ensures (x + 1) % n == if x % n == n - 1 then 0 else x % n + 1
  {
    var q := x / n;
    assert x == q * n + x % n;
    if x % n == n - 1 {
      assert x + 1 == (q + 1) * n + 0;
      ModUnique(x + 1, q + 1, 0, n);
    } else {
      ModUnique(x + 1, q, x % n + 1, n);
    }
  }
}

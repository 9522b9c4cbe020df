/** Powers of two and the bit operations the sources apply to non-negative integers. */
module Bits {

  function Pow2(k: nat): (p: nat)
    ensures p > 0
  {
    if k == 0 then 1 else 2 * Pow2(k - 1)
  }

  /** The exact floor of the base-two logarithm. */
  function FloorLog2(n: nat): (k: nat)
    requires n > 0
    ensures Pow2(k) <= n < Pow2(k + 1)
  {
    if n == 1 then 0 else 1 + FloorLog2(n / 2)
  }

  /** Bitwise conjunction, bit by bit. */
  function BitAnd(a: nat, b: nat): nat {
    if a == 0 || b == 0 then 0
    else (if a % 2 == 1 && b % 2 == 1 then 1 else 0) + 2 * BitAnd(a / 2, b / 2)
  }

  predicate IsPow2(n: nat) {
    n > 0 && n == Pow2(FloorLog2(n))
  }

  lemma {:induction false} Pow2Monotone(a: nat, b: nat)
    requires a <= b
    ensures Pow2(a) <= Pow2(b)
    decreases b
  {
    if a < b {
      Pow2Monotone(a, b - 1);
    }
  }

  lemma MulAssociative(a: int, b: int, c: int)
    ensures a * (b * c) == a * b * c
  {
  }

  lemma {:induction false} Pow2Add(a: nat, b: nat)
    ensures Pow2(a + b) == Pow2(a) * Pow2(b)
  {
    if a > 0 {
      Pow2Add(a - 1, b);
      MulAssociative(2, Pow2(a - 1), Pow2(b));
    }
  }

  /** The floor logarithm is the only exponent whose powers bracket n. */
  lemma {:induction false} FloorLog2Unique(n: nat, k: nat)
    requires Pow2(k) <= n < Pow2(k + 1)
    ensures FloorLog2(n) == k
  {
    var l := FloorLog2(n);
    if l < k {
      Pow2Monotone(l + 1, k);
    } else if k < l {
      Pow2Monotone(k + 1, l);
    }
  }

  lemma {:induction false} Pow2IsPow2(k: nat)
    ensures IsPow2(Pow2(k)) && FloorLog2(Pow2(k)) == k
  {
    FloorLog2Unique(Pow2(k), k);
  }

  lemma {:induction false} BitAndSelf(n: nat)
    ensures BitAnd(n, n) == n
  {
    if n > 0 {
      BitAndSelf(n / 2);
    }
  }

  /** The classic test: n & (n-1) is zero exactly for powers of two. */
  lemma {:induction false} PowerOfTwoTest(n: nat)
    requires n > 0
    ensures BitAnd(n, n - 1) == 0 <==> IsPow2(n)
  {
    if n > 1 {
      if n % 2 == 1 {
        assert (n - 1) / 2 == n / 2;
        BitAndSelf(n / 2);
        var k := FloorLog2(n);
        assert k > 0;
      } else {
        assert (n - 1) / 2 == n / 2 - 1;
        PowerOfTwoTest(n / 2);
        assert BitAnd(n, n - 1) == 2 * BitAnd(n / 2, n / 2 - 1);
      }
    }
  }

  lemma BitAndOdd(x: nat, m: nat)
    requires x > 0
    ensures BitAnd(x, 2 * m + 1) == x % 2 + 2 * BitAnd(x / 2, m)
  {
    assert (2 * m + 1) / 2 == m && (2 * m + 1) % 2 == 1;
  }

  /** Masking with 2^k - 1 keeps the value modulo 2^k. */
  lemma {:induction false} BitAndMask(x: nat, k: nat)
    ensures BitAnd(x, Pow2(k) - 1) == x % Pow2(k)
  {
    if k > 0 {
      BitAndMask(x / 2, k - 1);
      MaskDoubles(x, Pow2(k - 1), Pow2(k), x / 2 % Pow2(k - 1));
    }
  }

  lemma MaskDoubles(x: nat, half: nat, full: nat, low: nat)
    requires half > 0 && full == 2 * half && low == x / 2 % half && BitAnd(x / 2, half - 1) == low
    ensures BitAnd(x, full - 1) == x % full
  {
    var r := 2 * low + x % 2;
    ModDouble(x, half);
    assert x % full == r;
    if x > 0 {
      BitAndOdd(x, half - 1);
    }
  }

  lemma ModDouble(x: nat, half: nat)
    requires half > 0
    ensures x % (2 * half) == 2 * (x / 2 % half) + x % 2
  {
    var q, r := x / 2 / half, x / 2 % half;
    assert x / 2 == half * q + r;
    assert q * (2 * half) == 2 * (half * q);
    ModUnique(x, 2 * half, q, 2 * r + x % 2);
  }

  lemma MulAtLeast(d: int, m: int)
    requires m > 0
    ensures d >= 1 ==> d * m >= m
    ensures d <= -1 ==> d * m <= -m
  {
  }

  lemma MulSub(a: int, b: int, m: int)
    ensures (a - b) * m == a * m - b * m
  {
  }

  /** How many multiples of p lie below n. */
  lemma CeilingBound(n: nat, p: nat, j: nat)
    requires p > 0
    ensures j * p < n <==> j < (n + p - 1) / p
  {
    var c := (n + p - 1) / p;
    assert n + p - 1 == p * c + (n + p - 1) % p;
    assert n <= c * p < n + p;
    MulSub(c, j, p);
    MulAtLeast(c - j, p);
  }

  /** Quotient and remainder are the only pair that recomposes x with a remainder below m. */
  lemma ModUnique(x: int, m: int, q: int, r: int)
    requires m > 0 && 0 <= r < m && x == q * m + r
    ensures x / m == q && x % m == r
  {
    var q', r' := x / m, x % m;
    assert x == m * q' + r';
    assert x == q' * m + r';
    MulSub(q, q', m);
    MulAtLeast(q - q', m);
  }
}

/** Integer models of the bit operations the cache's address decoder uses:
    powers of two, an integer log2 of a power of two, a logical right shift
    written as repeated halving and a bitwise AND written bit by bit. */
module Bits {

  /** 2^k. */
  function Pow2(k: nat): (p: nat)
    ensures p >= 1
  {
    if k == 0 then 1 else 2 * Pow2(k - 1)
  }

  /** n is 1, 2, 4, 8, ... */
  predicate IsPow2(n: int)
    decreases if n > 0 then n else 0
  {
    n == 1 || (n > 1 && n % 2 == 0 && IsPow2(n / 2))
  }

  /** The integer log2 of a power of two; stands for `(int)std::log2(n)`,
      which is exact on powers of two. */
  function Log2(n: int): (k: nat)
    requires IsPow2(n)
    ensures Pow2(k) == n
    decreases if n > 0 then n else 0
  {
    if n == 1 then 0 else 1 + Log2(n / 2)
  }

  lemma IsPow2Positive(n: int)
    requires IsPow2(n)
    ensures n >= 1
  {
  }

  lemma {:induction false} Pow2Add(a: nat, b: nat)
    ensures Pow2(a + b) == Pow2(a) * Pow2(b)
  {
    if a > 0 {
      Pow2Add(a - 1, b);
      assert Pow2(a + b) == 2 * Pow2(a - 1 + b);
    }
  }

  /** d * k grows with k. */
  lemma MulMonotone(d: nat, j: nat, k: nat)
    requires j <= k
    ensures d * j <= d * k
  {
    assert d * k == d * j + d * (k - j);
  }

  /** Regrouping a product of three factors. */
  lemma MulRegroup(x: int, y: int, z: int)
    ensures x * (y * z) == (x * z) * y
  {
  }

  /** Euclid's division, stated as a fact to call on. */
  lemma DivMod(x: nat, d: nat)
    requires d > 0
    ensures x == (x / d) * d + x % d && x % d < d
  {
  }

  /** Of two ways to write the same number as d * q + r, the one with the
      remainder below d has the larger quotient. */
  lemma QuotientBound(d: nat, q: nat, r: nat, q': nat, r': nat)
    requires r < d && d * q + r == d * q' + r'
    ensures q' <= q
  {
    if q' > q {
      assert d * (q + 1) == d * q + d;
      MulMonotone(d, q + 1, q');
    }
  }

  /** Division and remainder are determined by any quotient/remainder pair. */
  lemma DivModUnique(x: nat, d: nat, q: nat, r: nat)
    requires d > 0 && r < d && x == d * q + r
    ensures x / d == q && x % d == r
  {
    QuotientBound(d, q, r, x / d, x % d);
    QuotientBound(d, x / d, x % d, q, r);
  }

  /** Adding k multiples of d moves the quotient by k and keeps the remainder. */
  lemma AddMultiple(x: nat, d: nat, k: nat)
    requires d > 0
    ensures (x + k * d) / d == x / d + k && (x + k * d) % d == x % d
  {
    DivMod(x, d);
    assert x + k * d == d * (x / d + k) + x % d;
    DivModUnique(x + k * d, d, x / d + k, x % d);
  }

  /** Dividing by b and then by c is dividing by b * c. */
  lemma DivDiv(x: nat, b: nat, c: nat)
    requires b > 0 && c > 0
    ensures x / b / c == x / (b * c)
  {
    var q, r := x / b, x % b;
    var q2, r2 := q / c, q % c;
    var bc := b * c;
    assert bc > 0 by { MulMonotone(b, 1, c); }
    assert x == b * q + r;
    assert b * q == bc * q2 + b * r2 by {
      assert q == c * q2 + r2;
      assert b * (c * q2 + r2) == b * (c * q2) + b * r2;
      assert b * (c * q2) == bc * q2;
    }
    assert b * r2 + r < bc by {
      MulMonotone(b, r2, c - 1);
      assert b * (c - 1) == bc - b;
    }
    DivModUnique(x, bc, q2, b * r2 + r);
  }

  /** The remainder modulo 2p, split into its lowest bit and the rest. */
  lemma ModHalf(x: nat, p: nat)
    requires p > 0
    ensures x % (2 * p) == 2 * ((x / 2) % p) + x % 2
  {
    var h := x / 2;
    assert x == 2 * h + x % 2;
    assert h == p * (h / p) + h % p;
    assert x == 2 * p * (h / p) + (2 * (h % p) + x % 2);
    DivModUnique(x, 2 * p, h / p, 2 * (h % p) + x % 2);
  }

  /** `x >> k` on an unsigned value: k halvings. */
  function ShiftRight(x: nat, k: nat): (r: nat)
    ensures r == x / Pow2(k)
  {
    if k == 0 then x
    else
      DivDiv(x, 2, Pow2(k - 1));
      ShiftRight(x / 2, k - 1)
  }

  /** `x & y` on unsigned values, lowest bit first. */
  function BitAnd(x: nat, y: nat): (r: nat)
    ensures r <= x && r <= y
  {
    if x == 0 || y == 0 then 0
    else 2 * BitAnd(x / 2, y / 2) + (if x % 2 == 1 && y % 2 == 1 then 1 else 0)
  }

  /** One step of BitAnd against an all-ones mask 2p - 1: the lowest bit of x
      survives and the rest is masked with p - 1. */
  lemma AndOnesStep(x: nat, p: nat)
    requires x > 0 && p > 0
    ensures BitAnd(x, 2 * p - 1) == 2 * BitAnd(x / 2, p - 1) + x % 2
  {
    var m := 2 * p - 1;
    DivModUnique(m, 2, p - 1, 1);
  }

  /** Masking with 2^k - 1 keeps the k lowest bits: it is the remainder modulo 2^k. */
  lemma {:induction false} AndLowMask(x: nat, k: nat)
    ensures BitAnd(x, Pow2(k) - 1) == x % Pow2(k)
  {
    if k == 0 {
      assert x % 1 == 0;
    } else if x == 0 {
      DivModUnique(0, Pow2(k), 0, 0);
    } else {
      var p := Pow2(k - 1);
      AndOnesStep(x, p);
      AndLowMask(x / 2, k - 1);
      ModHalf(x, p);
    }
  }
}

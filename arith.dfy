/** Exact integer facts the modular model rests on: powers of two, the
    truncating remainder of C++, and the laws of Euclidean `%` that turn
    "reduce after every step" into "reduce once at the end". */
module Arith {

  /** 2^k. */
  function Pow2(k: nat): (r: nat)
    ensures r >= 1
  {
    if k == 0 then 1 else 2 * Pow2(k - 1)
  }

  lemma {:induction false} Pow2Add(i: nat, j: nat)
    ensures Pow2(i + j) == Pow2(i) * Pow2(j)
  {
    if j > 0 {
      Pow2Add(i, j - 1);
      assert Pow2(i + j) == 2 * Pow2(i + j - 1);
    }
  }

  lemma {:induction false} Pow2Monotone(i: nat, j: nat)
    requires i <= j
    ensures Pow2(i) <= Pow2(j)
  {
    if i < j {
      Pow2Monotone(i, j - 1);
    }
  }

  lemma Pow2Of32()
    ensures Pow2(32) == 0x1_0000_0000
  {
    Pow2Small();
    Pow2Double(8, 0x100);
    Pow2Double(16, 0x1_0000);
  }

  lemma Pow2Of64()
    ensures Pow2(64) == 0x1_0000_0000_0000_0000
  {
    Pow2Of32();
    Pow2Double(32, 0x1_0000_0000);
  }

  lemma Pow2Small()
    ensures Pow2(8) == 0x100
  {
    assert Pow2(4) == 16;
  }

  lemma Pow2Double(k: nat, v: nat)
    requires Pow2(k) == v
    ensures Pow2(k + k) == v * v
  {
    Pow2Add(k, k);
  }

  /** b^e over the naturals. */
  function NatPow(b: nat, e: nat): (r: nat) {
    if e == 0 then 1 else NatPow(b, e - 1) * b
  }

  /** The remainder of C++'s `%` on a signed operand: it truncates toward
      zero, so it carries the sign of the dividend. */
  function TruncRem(x: int, m: int): (r: int)
    requires m > 0
    ensures -m < r < m
    ensures x >= 0 ==> r >= 0
    ensures x <= 0 ==> r <= 0
    ensures (x - r) % m == 0
  {
    if x >= 0 then
      ModUnique(x - x % m, m, x / m, 0);
      x % m
    else
      var t := (-x) % m;
      NegatedRemainder(x, m, t);
      -t
  }

  /** The quotient and remainder of a division are the only pair that fits
      the division identity with the remainder in range. */
  lemma ModUnique(x: int, m: int, q: int, r: int)
    requires m > 0 && 0 <= r < m && x == m * q + r
    ensures x % m == r && x / m == q
  {
    var q', r' := x / m, x % m;
    var d := q - q';
    assert m * d == r' - r by {
      assert m * q + r == m * q' + r';
      MulSub(m, q, q');
    }
    if d >= 1 {
      MulAtLeast(m, d);
    } else if d <= -1 {
      MulAtLeast(m, -d);
    }
  }

  lemma NegatedRemainder(x: int, m: int, t: int)
    requires m > 0 && t == (-x) % m
    ensures 0 <= t < m && (x - (-t)) % m == 0
  {
    var q := (-x) / m;
    assert -x == m * q + t;
    assert x - (-t) == m * (-q) + 0;
    ModUnique(x - (-t), m, -q, 0);
  }

  lemma MulSub(m: int, a: int, b: int)
    ensures m * (a - b) == m * a - m * b
  {
  }

  lemma MulDistributes(a: int, b: int, x: int)
    ensures (a + b) * x == a * x + b * x
    ensures (a - b) * x == a * x - b * x
  {
  }

  /** Euclidean division of naturals. */
  lemma DivModNat(a: nat, b: nat)
    requires b > 0
    ensures 0 <= a / b && 0 <= a % b < b && a == b * (a / b) + a % b
  {
  }

  /** Dividing by at least 2 makes a positive number smaller. */
  lemma DivBelow(x: nat, a: nat)
    requires x > 0 && a >= 2
    ensures x / a < x
  {
    var q := x / a;
    assert x == a * q + x % a;
    if q > 0 {
      MulAtLeast(q, a);
      assert a * q >= 2 * q;
    }
  }

  lemma MulAtLeast(m: int, d: int)
    requires m > 0 && d >= 1
    ensures m * d >= m
  {
    assert m * d == m * (d - 1) + m;
    assert m * (d - 1) >= 0;
  }

  lemma ModAddMultiple(x: int, m: int, k: int)
    requires m > 0
    ensures (x + m * k) % m == x % m
  {
    assert x + m * k == m * (x / m + k) + x % m;
    ModUnique(x + m * k, m, x / m + k, x % m);
  }

  lemma ModOfSum(x: int, y: int, m: int)
    requires m > 0
    ensures (x + y) % m == (x % m + y % m) % m
  {
    assert x + y == (x % m + y % m) + m * (x / m + y / m);
    ModAddMultiple(x % m + y % m, m, x / m + y / m);
  }

  lemma ModOfDifference(x: int, y: int, m: int)
    requires m > 0
    ensures (x - y) % m == (x % m - y % m) % m
  {
    assert x - y == (x % m - y % m) + m * (x / m - y / m);
    ModAddMultiple(x % m - y % m, m, x / m - y / m);
  }

  lemma ModOfProduct(x: int, y: int, m: int)
    requires m > 0
    ensures (x * y) % m == ((x % m) * (y % m)) % m
  {
    var qx, rx, qy, ry := x / m, x % m, y / m, y % m;
    assert x * y == (qx * m + rx) * (qy * m + ry);
    assert (qx * m + rx) * (qy * m + ry) == rx * ry + m * (qx * qy * m + qx * ry + rx * qy);
    ModAddMultiple(rx * ry, m, qx * qy * m + qx * ry + rx * qy);
  }

  /** A value in range that differs from x by a multiple of m is x's residue. */
  lemma CongruentResidue(x: int, r: int, m: int)
    requires m > 0 && 0 <= r < m && (x - r) % m == 0
    ensures x % m == r
  {
    var q := (x - r) / m;
    assert x - r == m * q + 0;
    ModUnique(x, m, q, r);
  }

  /** Reducing by a multiple of m first does not change the residue mod m. */
  lemma ModOfModMultiple(v: int, k: int, m: int)
    requires k > 0 && m > 0 && k % m == 0
    ensures (v % k) % m == v % m
  {
    var q := k / m;
    assert k == m * q + 0;
    var wq, wr := v / k, v % k;
    assert v == k * wq + wr;
    assert k * wq == m * (q * wq);
    assert v == wr + m * (q * wq);
    ModAddMultiple(wr, m, q * wq);
  }

  lemma ModIdempotent(x: int, m: int)
    requires m > 0
    ensures (x % m) % m == x % m
  {
    ModUnique(x % m, m, 0, x % m);
  }

  lemma ModOfSmall(x: int, m: int)
    requires 0 <= x < m
    ensures x % m == x
  {
    ModUnique(x, m, 0, x);
  }

  /** Congruence mod m is preserved by +, - and *. */
  lemma AddCongruent(a: int, a': int, b: int, b': int, m: int)
    requires m > 0 && a % m == a' % m && b % m == b' % m
    ensures (a + b) % m == (a' + b') % m
  {
    ModOfSum(a, b, m);
    ModOfSum(a', b', m);
  }

  lemma SubCongruent(a: int, a': int, b: int, b': int, m: int)
    requires m > 0 && a % m == a' % m && b % m == b' % m
    ensures (a - b) % m == (a' - b') % m
  {
    ModOfDifference(a, b, m);
    ModOfDifference(a', b', m);
  }

  lemma MulCongruent(a: int, a': int, b: int, m: int)
    requires m > 0 && a % m == a' % m
    ensures (a * b) % m == (a' * b) % m
    ensures (b * a) % m == (b * a') % m
  {
    ModOfProduct(a, b, m);
    ModOfProduct(a', b, m);
    assert a * b == b * a && a' * b == b * a';
  }

  /** `c` divides `n` (with 0 dividing only 0). */
  predicate Divides(c: nat, n: int) {
    if c == 0 then n == 0 else n % c == 0
  }

  lemma DividesLinear(c: nat, a: int, b: int, x: int, y: int)
    requires Divides(c, a) && Divides(c, b)
    ensures Divides(c, a * x + b * y)
  {
    if c > 0 {
      var qa, qb := a / c, b / c;
      assert a == c * qa;
      assert b == c * qb;
      assert a * x + b * y == 0 + c * (qa * x + qb * y);
      ModAddMultiple(0, c, qa * x + qb * y);
    }
  }

  lemma DividesOne(c: nat)
    requires Divides(c, 1)
    ensures c == 1
  {
    if c > 1 {
      ModOfSmall(1, c);
    }
  }
}

/** Extended Euclid and the modular inverse built on it, including the
    hand-made first Euclid step that avoids storing 2^W in T when the
    modder holds the sentinel `m == 0`. */
module NumberTheory {
  import opened Arith
  import opened Modular

  datatype Option<T> = None | Some(value: T)

  /** `ExtendedGCDResult<T>`: `d` in T, the coefficients in the doubled
      signed type. */
  datatype ExtGcd = ExtGcd(d: nat, x: int, y: int)

  /** `gcd_ext`: recursion on (b, a % b). */
  function GcdExt(a: nat, b: nat): (g: ExtGcd)
    decreases b
  {
    if b == 0 then
      ExtGcd(a, 1, 0)
    else
      var g2 := GcdExt(b, a % b);
      ExtGcd(g2.d, g2.y, g2.x - (a / b) * g2.y)
  }

  lemma BezoutStep(a: int, b: int, x2: int, y2: int, d: int)
    requires b > 0 && b * x2 + (a % b) * y2 == d
    ensures a * y2 + b * (x2 - (a / b) * y2) == d
  {
    var q, r := a / b, a % b;
    assert a == b * q + r;
    assert a * y2 == b * q * y2 + r * y2;
    assert b * (x2 - q * y2) == b * x2 - b * q * y2;
  }

  /** Bezout's identity: a*x + b*y == d. */
  lemma {:induction false} GcdExtBezout(a: nat, b: nat)
    ensures a * GcdExt(a, b).x + b * GcdExt(a, b).y == GcdExt(a, b).d
    decreases b
  {
    if b > 0 {
      var g2 := GcdExt(b, a % b);
      GcdExtBezout(b, a % b);
      BezoutStep(a, b, g2.x, g2.y, g2.d);
    }
  }

  /** d divides both arguments. */
  lemma {:induction false} GcdExtDivides(a: nat, b: nat)
    ensures Divides(GcdExt(a, b).d, a) && Divides(GcdExt(a, b).d, b)
    decreases b
  {
    var d := GcdExt(a, b).d;
    if b == 0 {
      if d > 0 {
        ModUnique(d, d, 1, 0);
        ModOfSmall(0, d);
      }
    } else {
      GcdExtDivides(b, a % b);
      assert a == b * (a / b) + (a % b) * 1;
      DividesLinear(d, b, a % b, a / b, 1);
    }
  }

  /** Every common divisor of a and b divides d, so d is the gcd. */
  lemma GcdExtGreatest(a: nat, b: nat, c: nat)
    requires Divides(c, a) && Divides(c, b)
    ensures Divides(c, GcdExt(a, b).d)
  {
    GcdExtBezout(a, b);
    DividesLinear(c, a, b, GcdExt(a, b).x, GcdExt(a, b).y);
  }

  /** The coefficients stay within the arguments, so they fit the doubled
      signed type. */
  lemma {:induction false} GcdExtBounds(a: nat, b: nat)
    ensures -(if b == 0 then 1 else b) <= GcdExt(a, b).x <= (if b == 0 then 1 else b)
    ensures -(if a == 0 then 1 else a) <= GcdExt(a, b).y <= (if a == 0 then 1 else a)
    decreases b
  {
    if b > 0 {
      DivModNat(a, b);
      var q, r := a / b, a % b;
      var g2 := GcdExt(b, r);
      GcdExtBounds(b, r);
      assert r == 0 ==> g2 == ExtGcd(b, 1, 0);
      BoundsStep(a, b, q, r, g2.x, g2.y);
    }
  }

  /** One Euclid step keeps the new coefficient within the first argument. */
  lemma BoundsStep(a: nat, b: nat, q: nat, r: nat, x2: int, y2: int)
    requires b > 0 && r < b && a == b * q + r
    requires -(if r == 0 then 1 else r) <= x2 <= (if r == 0 then 1 else r)
    requires -(b as int) <= y2 <= b
    requires r == 0 ==> x2 == 1 && y2 == 0
    ensures -(if a == 0 then 1 else a) <= x2 - q * y2 <= (if a == 0 then 1 else a)
  {
    if r > 0 {
      CoefficientStep(a, b, q, r, x2, y2);
    } else {
      assert q * y2 == 0;
    }
  }

  lemma CoefficientStep(a: int, b: int, q: int, r: int, x2: int, y2: int)
    requires b > 0 && q >= 0 && r > 0 && a == b * q + r
    requires -r <= x2 <= r && -b <= y2 <= b
    ensures -a <= x2 - q * y2 <= a
  {
    assert -(q * b) <= q * y2 <= q * b by {
      assert q * b - q * y2 == q * (b - y2);
      assert q * y2 + q * b == q * (y2 + b);
      assert 0 <= q * (b - y2) && 0 <= q * (y2 + b);
    }
  }

  /** a and b have no common divisor but 1. */
  ghost predicate Coprime(a: nat, b: nat) {
    forall c: nat {:trigger Divides(c, a)} :: Divides(c, a) && Divides(c, b) ==> c == 1
  }

  lemma CoprimeIffGcdOne(a: nat, b: nat)
    ensures Coprime(a, b) <==> GcdExt(a, b).d == 1
  {
    var d := GcdExt(a, b).d;
    GcdExtDivides(a, b);
    if d == 1 {
      forall c: nat | Divides(c, a) && Divides(c, b)
        ensures c == 1
      {
        GcdExtGreatest(a, b, c);
        DividesOne(c);
      }
    }
  }

  /** The residue 2^W mod a and quotient 2^W / a that the sentinel branch
      computes in the wide unsigned type, with the first Euclid step
      finished by hand: gcdext(a, 2^W) from gcdext(a, 2^W mod a). */
  function SentinelGcdExt(w: nat, a: nat): (g: ExtGcd)
    requires IsWidth(w) && 2 <= a < Pow2(w)
    ensures g.d == GcdExt(a, Pow2(w) % a).d
  {
    var realM := Pow2(w);
    // Both casts to T lose nothing: the residue is below a, the quotient below 2^W.
    assert realM % a < a && realM / a < realM by {
      DivBelow(realM, a);
    }
    var g3 := GcdExt(a, realM % a);
    var g2 := ExtGcd(g3.d, g3.y, g3.x - (realM / a) * g3.y);
    ExtGcd(g2.d, g2.y, g2.x)
  }

  /** The hand-made step produces exactly what `gcd_ext(a, 2^W)` would,
      were 2^W representable in T. */
  lemma SentinelStepIsGcdExt(w: nat, a: nat)
    requires IsWidth(w) && 2 <= a < Pow2(w)
    ensures SentinelGcdExt(w, a) == GcdExt(a, Pow2(w))
  {
    var p := Pow2(w);
    ModUnique(a, p, 0, a);
    assert GcdExt(a, p) == var g := GcdExt(p, a); ExtGcd(g.d, g.y, g.x - 0 * g.y);
  }

  /** The extended-gcd result `inv_mod` works from, for a >= 2. */
  function InverseGcd(md: Modder, a: nat): (g: ExtGcd)
    requires md.Valid() && 2 <= a < md.Bound()
    ensures g == GcdExt(a, md.Modulus())
  {
    if md.m > 0 then
      GcdExt(a, md.m)
    else
      SentinelStepIsGcdExt(md.w, a);
      SentinelGcdExt(md.w, a)
  }

  /** The Bezout coefficient of a lies within the range `operator()`
      accepts for a signed operand. */
  lemma CoefficientFits(md: Modder, a: nat)
    requires md.Valid() && 2 <= a < md.Bound()
    ensures -(Pow2(BiggerWidth(md.w) - 1) as int) <= InverseGcd(md, a).x < Pow2(BiggerWidth(md.w) - 1)
  {
    GcdExtBounds(a, md.Modulus());
    WidthRange(md.w);
    Pow2Monotone(md.w + 1, BiggerWidth(md.w) - 1);
    md.BoundAtLeast256();
  }

  /** `inv_mod`: the inverse of a modulo M, if there is one. */
  function InvMod(md: Modder, a: nat): (r: Option<nat>)
    requires md.Valid() && a < md.Bound()
    ensures r.Some? ==> r.value < md.Modulus()
    ensures a == 0 ==> (r.Some? <==> md.Modulus() == 1)
    ensures a == 1 ==> r == Some(1 % md.Modulus())
  {
    if a == 0 then
      if md.m == 1 then Some(0) else None
    else if a == 1 then
      md.BoundAtLeast256();
      Some(md.Reduce(1))
    else
      var g := InverseGcd(md, a);
      if g.d != 1 then
        None
      else
        CoefficientFits(md, a);
        Some(md.ReduceSigned(g.x))
  }

  /** A returned value is an inverse: a * r == 1 (mod M). */
  lemma InvModIsInverse(md: Modder, a: nat)
    requires md.Valid() && a < md.Bound() && InvMod(md, a).Some?
    ensures (a * InvMod(md, a).value) % md.Modulus() == 1 % md.Modulus()
    ensures CorrectedInverseAssertion(md, a, InvMod(md, a).value)
  {
    var m := md.Modulus();
    ProductPair(a, InvMod(md, a).value);
    if a == 0 {
    } else if a == 1 {
      md.BoundAtLeast256();
      ModIdempotent(1, m);
    } else {
      var g := InverseGcd(md, a);
      GcdExtBezout(a, m);
      CoefficientFits(md, a);
      InverseFromBezout(a, g.x, g.y, m);
    }
  }

  lemma InverseFromBezout(a: int, x: int, y: int, m: int)
    requires m > 0 && a * x + m * y == 1
    ensures (a * (x % m)) % m == 1 % m
  {
    ModIdempotent(x, m);
    MulCongruent(x % m, x, a, m);
    ModAddMultiple(a * x, m, y);
  }

  /** `inv_mod` fails exactly when a and M share a factor. */
  lemma InvModNoneIffNotCoprime(md: Modder, a: nat)
    requires md.Valid() && a < md.Bound()
    ensures InvMod(md, a).None? <==> !Coprime(a, md.Modulus())
  {
    var m := md.Modulus();
    CoprimeIffGcdOne(a, m);
    if a == 0 {
      ModOfSmall(0, m);
      assert GcdExt(0, m).d == m;
      md.BoundAtLeast256();
    } else if a == 1 {
      GcdExtDivides(1, m);
      DividesOne(GcdExt(1, m).d);
    }
  }

  /** The check `inv_mod` asserts before returning: the product with the
      result reduces to the literal 1. */
  predicate InverseAssertion(md: Modder, a: nat, r: nat)
    requires md.Valid() && a < md.Bound() && r < md.Bound()
  {
    md.TimesMod([a, r]) == 1
  }

  /** The check as intended: the product reduces to the residue of 1. */
  predicate CorrectedInverseAssertion(md: Modder, a: nat, r: nat)
    requires md.Valid() && a < md.Bound() && r < md.Bound()
  {
    md.BoundAtLeast256();
    md.TimesMod([a, r]) == md.Reduce(1)
  }

  /** Modulo 1 every value is an inverse but every product reduces to 0,
      so for each a >= 2 the assertion fails although the returned 0 is
      correct. */
  lemma InverseAssertionFailsModuloOne(md: Modder, a: nat)
    requires md.Valid() && md.m == 1 && 2 <= a < md.Bound()
    ensures InvMod(md, a) == Some(0)
    ensures !InverseAssertion(md, a, 0)
  {
    assert GcdExt(1, 0).d == 1;
    assert GcdExt(a, 1).d == 1;
    ProductPair(a, 0);
  }

  /** The smallest instance: T of 8 bits, m == 1, a == 2. */
  lemma InverseAssertionCounterexample()
    ensures Modder(8, 1).Valid() && 2 < Modder(8, 1).Bound()
    ensures InvMod(Modder(8, 1), 2) == Some(0)
    ensures !InverseAssertion(Modder(8, 1), 2, 0)
  {
    StandardWidths();
    assert Pow2(8) == 256;
    InverseAssertionFailsModuloOne(Modder(8, 1), 2);
  }

  /** For every modulus above 1 the asserted check holds. */
  lemma InverseAssertionHolds(md: Modder, a: nat)
    requires md.Valid() && a < md.Bound() && InvMod(md, a).Some? && md.Modulus() > 1
    ensures InverseAssertion(md, a, InvMod(md, a).value)
  {
    InvModIsInverse(md, a);
    ModOfSmall(1, md.Modulus());
  }
}

/** `detail::UnsignedModder<T>`: arithmetic modulo a runtime modulus over the
    W-bit unsigned type T, where a stored modulus of 0 stands for 2^W.

    Values of T are naturals below 2^W. Every unreduced intermediate is an
    exact natural, and each operation proves that it stays below 2^K, where
    K is the width of the doubled type the source computes in; so the
    wide arithmetic of the source never wraps except where the model says
    so (`MinusModAsWritten`). */
module Modular {
  import opened Arith
  import FastCombine

  /** Bit widths of the standard unsigned integer types that T can be:
      2^3 through 2^6, that is 8, 16, 32 and 64. */
  predicate IsWidth(w: nat) {
    exists k: nat :: 3 <= k <= 6 && w == Pow2(k)
  }

  lemma WidthRange(w: nat)
    requires IsWidth(w)
    ensures 8 <= w <= 64
  {
    var k: nat :| 3 <= k <= 6 && w == Pow2(k);
    Pow2Monotone(3, k);
    Pow2Monotone(k, 6);
    assert Pow2(3) == 8 && Pow2(6) == 64;
  }

  /** The four widths are widths of T. */
  lemma StandardWidths()
    ensures IsWidth(8) && IsWidth(16) && IsWidth(32) && IsWidth(64)
  {
    assert Pow2(3) == 8 && Pow2(4) == 16 && Pow2(5) == 32 && Pow2(6) == 64;
  }

  /** Bit widths of `unsigned int`, `unsigned long`, `unsigned long long`
      and `__uint128_t` on an LP64 platform, in the order the finder of
      `least_doubled_uint` tries them. */
  const CANDIDATE_WIDTHS: seq<nat> := [32, 64, 64, 128]

  /** The first candidate at least twice as wide as T, or the last one. */
  function Finder(candidates: seq<nat>, w: nat): (k: nat)
    requires |candidates| >= 1
    ensures k in candidates
    ensures k >= 2 * w || k == candidates[|candidates| - 1]
    ensures exists i ::
              && 0 <= i < |candidates| && candidates[i] == k
              && (k >= 2 * w || i == |candidates| - 1)
              && (forall j :: 0 <= j < i ==> candidates[j] < 2 * w)
  {
    if |candidates| == 1 || candidates[0] >= 2 * w then
      assert candidates[0] == candidates[0];
      candidates[0]
    else
      var k := Finder(candidates[1..], w);
      var i :|
        && 0 <= i < |candidates[1..]| && candidates[1..][i] == k
        && (k >= 2 * w || i == |candidates[1..]| - 1)
        && (forall j :: 0 <= j < i ==> candidates[1..][j] < 2 * w);
      assert candidates[i + 1] == k;
      assert forall j :: 1 <= j < i + 1 ==> candidates[j] == candidates[1..][j - 1];
      k
  }

  /** K: the width of `least_doubled_uint_t<T>` (and of its signed partner). */
  function BiggerWidth(w: nat): (k: nat)
    requires IsWidth(w)
    ensures k >= 2 * w
  {
    WidthRange(w);
    Finder(CANDIDATE_WIDTHS, w)
  }

  /** The product of xs. */
  function Product(xs: seq<nat>): (r: nat) {
    if |xs| == 0 then 1 else xs[0] * Product(xs[1..])
  }

  /** The modular reducer. `w` is the width of T; `m` the stored modulus. */
  datatype Modder = Modder(w: nat, m: nat) {

    predicate Valid() {
      IsWidth(w) && m < Pow2(w)
    }

    /** Exclusive bound of T. */
    function Bound(): (r: nat) {
      Pow2(w)
    }

    /** T has at least 256 values (so `1` and the pair operands fit). */
    lemma BoundAtLeast256()
      requires Valid()
      ensures Bound() >= 256
    {
      WidthRange(w);
      Pow2Small();
      Pow2Monotone(8, w);
    }

    /** Exclusive bound of the doubled unsigned type. */
    function WideBound(): (r: nat)
      requires Valid()
      ensures 2 * Bound() <= r
    {
      WidthRange(w);
      Pow2Add(1, w);
      Pow2Monotone(1 + w, BiggerWidth(w));
      Pow2(BiggerWidth(w))
    }

    /** `real_m`: the true modulus M. */
    function Modulus(): (r: nat)
      requires Valid()
      ensures 1 <= r <= Bound()
      ensures r == Bound() <==> m == 0
    {
      if m != 0 then m else Pow2(w)
    }

    /** `operator()` on an unsigned operand of at most the doubled width:
        the residue of x, which fits T so the final cast loses nothing. */
    function Reduce(x: nat): (r: nat)
      requires Valid() && x < WideBound()
      ensures r < Modulus() && r < Bound()
      ensures r == x % Modulus()
    {
      x % Modulus()
    }

    /** `operator()` on a signed operand of at most the doubled width: C++'s
        remainder truncates toward zero, and a negative one is lifted by
        adding M. The result is the canonical (Euclidean) residue. */
    function ReduceSigned(x: int): (r: nat)
      requires Valid()
      requires -(Pow2(BiggerWidth(w) - 1) as int) <= x < Pow2(BiggerWidth(w) - 1)
      ensures r < Modulus() && r < Bound()
      ensures r == x % Modulus()
    {
      var t := TruncRem(x, Modulus());
      var r := if t < 0 then t + Modulus() else t;
      ModAddMultiple(x - t, Modulus(), -1);
      assert (x - r) % Modulus() == 0;
      CongruentResidue(x, r, Modulus());
      r
    }

    /** `internal_sum`: the exact sum, with an overflow bound for the wide type. */
    function InternalSum(xs: seq<nat>): (r: nat)
      requires forall i :: 0 <= i < |xs| ==> xs[i] < Bound()
      ensures r <= |xs| * (Bound() - 1)
    {
      if |xs| == 0 then 0
      else
        var rest := InternalSum(xs[1..]);
        MulSucc(|xs| - 1, Bound() - 1);
        xs[0] + rest
    }

    /** `plus_mod(args...)` (the source needs at least one operand). */
    function PlusMod(xs: seq<nat>): (r: nat)
      requires Valid() && 1 <= |xs| <= Bound()
      requires forall i :: 0 <= i < |xs| ==> xs[i] < Bound()
      ensures r < Modulus() && r == InternalSum(xs) % Modulus()
    {
      var s := InternalSum(xs);
      NoWideOverflow(Bound(), |xs|, Bound() - 1, 0, 0);
      WideBoundCovers();
      Reduce(s)
    }

    /** `internal_prod_mod`: reduce after every multiplication, so each
        wide product is a T value times a residue. */
    function InternalProdMod(xs: seq<nat>): (r: nat)
      requires Valid() && |xs| >= 1
      requires forall i :: 0 <= i < |xs| ==> xs[i] < Bound()
      ensures r < Modulus() && r == Product(xs) % Modulus()
    {
      WideBoundCovers();
      if |xs| == 1 then
        Reduce(xs[0])
      else
        var t := InternalProdMod(xs[1..]);
        ProductFits(xs[0], t);
        ProductStep(xs[0], Product(xs[1..]), t, Modulus());
        Reduce(xs[0] * t)
    }

    /** `times_mod(args...)`. */
    function TimesMod(xs: seq<nat>): (r: nat)
      requires Valid() && |xs| >= 1
      requires forall i :: 0 <= i < |xs| ==> xs[i] < Bound()
      ensures r < Modulus() && r == Product(xs) % Modulus()
    {
      InternalProdMod(xs)
    }

    /** `times_mod` of two operands is their product modulo M. */
    lemma TimesModPair(x: nat, y: nat)
      requires Valid() && x < Bound() && y < Bound()
      ensures TimesMod([x, y]) == (x * y) % Modulus()
    {
      ProductPair(x, y);
    }

    /** `minus_mod` exactly as the source computes it: `x - y` in the
        doubled unsigned type wraps modulo 2^K before it is reduced. */
    function MinusModAsWritten(x: nat, y: nat): (r: nat)
      requires Valid() && x < Bound() && y < Bound()
      ensures r < Modulus()
      ensures r == ((x - y) % WideBound()) % Modulus()
    {
      WideBoundCovers();
      var wide := if x >= y then x - y else WideBound() + x - y;
      ModUnique(x - y, WideBound(), if x >= y then 0 else -1, wide);
      Reduce(wide)
    }

    /** `minus_mod` as intended: lift `x - y` by M instead of by 2^K. */
    function MinusMod(x: nat, y: nat): (r: nat)
      requires Valid() && x < Bound() && y < Bound()
      ensures r < Modulus()
      ensures r == (x - y) % Modulus()
    {
      WideBoundCovers();
      var yr := Reduce(y);
      MinusModLift(x, y, yr, Modulus());
      Reduce(x + (Modulus() - yr))
    }

    /** `times_plus_mod`: the LCG step `(x*y + z) mod M`. */
    function TimesPlusMod(x: nat, y: nat, z: nat): (r: nat)
      requires Valid() && x < Bound() && y < Bound() && z < Bound()
      ensures r < Modulus() && r == (x * y + z) % Modulus()
    {
      StepFits(x, y, z, 0);
      Reduce(x * y + z)
    }

    /** `times_plus_plus_mod`: `(x*y + z + v) mod M`. */
    function TimesPlusPlusMod(x: nat, y: nat, z: nat, v: nat): (r: nat)
      requires Valid() && x < Bound() && y < Bound() && z < Bound() && v < Bound()
      ensures r < Modulus() && r == (x * y + z + v) % Modulus()
    {
      StepFits(x, y, z, v);
      Reduce(x * y + z + v)
    }

    lemma ProductFits(x: nat, y: nat)
      requires Valid() && x < Bound() && y < Bound()
      ensures 0 <= x * y < WideBound()
    {
      StepFits(x, y, 0, 0);
    }

    /** The unreduced affine step of W-bit operands fits the doubled type. */
    lemma StepFits(x: nat, y: nat, z: nat, v: nat)
      requires Valid() && x < Bound() && y < Bound() && z < Bound() && v < Bound()
      ensures 0 <= x * y && x * y + z + v < WideBound()
    {
      NoWideOverflow(Bound(), x, y, z, v);
      WideBoundCovers();
    }

    /** 2^(2W) <= 2^K: whatever is below 2^(2W) fits the doubled type. */
    lemma WideBoundCovers()
      requires Valid()
      ensures Bound() * Bound() <= WideBound()
      ensures 2 * Bound() <= WideBound()
    {
      Pow2Add(w, w);
      Pow2Monotone(w + w, BiggerWidth(w));
    }
  }

  /** Overflow safety of the wide intermediates: for W-bit operands the
      unreduced value of `x*y + z + v` is at most 2^(2W) - 1. */
  lemma NoWideOverflow(b: nat, x: nat, y: nat, z: nat, v: nat)
    requires x <= b && y < b && z < b && v < b
    requires x == b ==> z == 0 && v == 0
    ensures 0 <= x * y && x * y + z + v < b * b
  {
    if x == b {
      assert x * y < b * b by { MulStrict(b, y, b); }
    } else {
      assert x * y <= (b - 1) * (b - 1) by { MulMono(x, b - 1, y, b - 1); }
      assert (b - 1) * (b - 1) == b * b - 2 * b + 1;
    }
  }

  lemma MinusModLift(x: int, y: int, yr: int, m: int)
    requires m > 0 && yr == y % m
    ensures (x + (m - yr)) % m == (x - y) % m
  {
    calc {
      (x + (m - yr)) % m;
      { assert x + (m - yr) == (x - yr) + m * 1; ModAddMultiple(x - yr, m, 1); }
      (x - yr) % m;
      { ModOfDifference(x, yr, m); ModIdempotent(y, m); ModOfDifference(x, y, m); }
      (x - y) % m;
    }
  }

  lemma ProductStep(x: int, p: int, t: int, m: int)
    requires m > 0 && t == p % m
    ensures (x * t) % m == (x * p) % m
    ensures (t * x) % m == (p * x) % m
  {
    ModOfProduct(x, p, m);
    ModIdempotent(p, m);
    ModOfProduct(x, t, m);
    assert t * x == x * t && p * x == x * p;
  }

  lemma MulSucc(n: nat, b: nat)
    ensures (n + 1) * b == n * b + b
  {
  }

  lemma MulMono(x: nat, x': nat, y: nat, y': nat)
    requires x <= x' && y <= y'
    ensures x * y <= x' * y'
  {
    assert x * y <= x' * y;
    assert x' * y <= x' * y';
  }

  lemma MulStrict(b: nat, y: nat, b': nat)
    requires b == b' && y < b
    ensures b * y < b * b'
  {
  }

  lemma ProductPair(x: nat, y: nat)
    ensures Product([x, y]) == x * y
  {
    assert [x, y][1..] == [y];
    assert [y][1..] == [];
    assert Product([y]) == y * Product([]) == y;
  }

  /** The lambda `mul_mod` of `pow_mod`, defined on values of T. */
  function MulModOp(md: Modder): (op: (nat, nat) --> nat) {
    (x: nat, y: nat) requires md.Valid() && x < md.Bound() && y < md.Bound() => md.TimesMod([x, y])
  }

  /** Values of T. */
  function Word(md: Modder): (isWord: nat -> bool) {
    (x: nat) => x < md.Bound()
  }

  /** `mul_mod` multiplies modulo M. */
  lemma MulModAt(md: Modder, x: nat, y: nat)
    requires md.Valid() && x < md.Bound() && y < md.Bound()
    ensures MulModOp(md).requires(x, y)
    ensures MulModOp(md)(x, y) == (x * y) % md.Modulus() < md.Bound()
  {
    ProductPair(x, y);
  }

  lemma MulModAssociativeAt(x: int, y: int, z: int, m: int)
    requires m > 0
    ensures (((x * y) % m) * z) % m == (x * ((y * z) % m)) % m
  {
    var xy, yz := x * y, y * z;
    ProductStep(z, xy, xy % m, m);
    ProductStep(x, yz, yz % m, m);
    assert xy * z == x * yz;
  }

  lemma MulModIsAssociative(md: Modder)
    requires md.Valid()
    ensures FastCombine.Closed(MulModOp(md), Word(md))
    ensures FastCombine.Associative(MulModOp(md), Word(md))
  {
    var op, M := MulModOp(md), md.Modulus();
    forall x: nat, y: nat | x < md.Bound() && y < md.Bound()
      ensures op.requires(x, y) && op(x, y) < md.Bound()
    {
      MulModAt(md, x, y);
    }
    assert FastCombine.Closed(op, Word(md));
    forall x: nat, y: nat, z: nat | x < md.Bound() && y < md.Bound() && z < md.Bound()
      ensures op(op(x, y), z) == op(x, op(y, z))
    {
      MulModAt(md, x, y);
      MulModAt(md, y, z);
      MulModAt(md, op(x, y), z);
      MulModAt(md, x, op(y, z));
      MulModAssociativeAt(x, y, z, md.Modulus());
    }
  }

  lemma NatPowStep(b: nat, e: nat, prev: nat, m: nat)
    requires m > 0 && e > 0 && prev == NatPow(b, e - 1) % m
    ensures (prev * b) % m == NatPow(b, e) % m
  {
    ProductStep(b, NatPow(b, e - 1), prev, m);
  }

  /** The fold of `pow_mod` is the power: unit op b op ... op b == b^e mod M. */
  lemma {:induction false} MulModPower(md: Modder, b: nat, e: nat)
    requires md.Valid() && b < md.Bound()
    requires FastCombine.Closed(MulModOp(md), Word(md))
    ensures FastCombine.Power(MulModOp(md), Word(md), md.Reduce(1), b, e) == NatPow(b, e) % md.Modulus()
  {
    if e > 0 {
      MulModPower(md, b, e - 1);
      MulModPowerStep(md, b, e);
    }
  }

  lemma MulModPowerStep(md: Modder, b: nat, e: nat)
    requires md.Valid() && b < md.Bound() && e > 0
    requires FastCombine.Closed(MulModOp(md), Word(md))
    requires FastCombine.Power(MulModOp(md), Word(md), md.Reduce(1), b, e - 1) == NatPow(b, e - 1) % md.Modulus()
    ensures FastCombine.Power(MulModOp(md), Word(md), md.Reduce(1), b, e) == NatPow(b, e) % md.Modulus()
  {
    var op, inv, u := MulModOp(md), Word(md), md.Reduce(1);
    var prev := FastCombine.Power(op, inv, u, b, e - 1);
    assert FastCombine.Power(op, inv, u, b, e) == op(prev, b);
    MulModAt(md, prev, b);
    NatPowStep(b, e, prev, md.Modulus());
  }

  /** `pow_mod`: binary exponentiation with `times_mod` and unit `mod(1)`. */
  method PowMod(md: Modder, base: nat, expo: nat) returns (r: nat)
    requires md.Valid() && base < md.Bound() && expo < FastCombine.ULL_BOUND
    ensures r < md.Modulus()
    ensures r == NatPow(base, expo) % md.Modulus()
  {
    md.WideBoundCovers();
    MulModIsAssociative(md);
    r := FastCombine.DoubleAndAdd(base, expo, MulModOp(md), md.Reduce(1), Word(md));
    MulModPower(md, base, expo);
  }

  /** Sentinel wrap-around: under m == 0 reduction is the identity on T and
      sends 2^W to 0. */
  lemma SentinelReduce(md: Modder)
    requires md.Valid() && md.m == 0
    ensures md.Reduce(md.Bound()) == 0
    ensures md.Reduce(md.Bound() - 1) == md.Bound() - 1
  {
    md.WideBoundCovers();
    ModUnique(md.Bound(), md.Bound(), 1, 0);
    ModOfSmall(md.Bound() - 1, md.Bound());
  }

  /** The wide wrap of `minus_mod` is harmless exactly when M divides 2^K:
      then the as-written and the intended difference agree. */
  lemma MinusModAgreesOnPowerOfTwoModuli(md: Modder, x: nat, y: nat)
    requires md.Valid() && x < md.Bound() && y < md.Bound()
    requires md.WideBound() % md.Modulus() == 0
    ensures md.MinusModAsWritten(x, y) == md.MinusMod(x, y)
  {
    ModOfModMultiple(x - y, md.WideBound(), md.Modulus());
  }

  /** `minus_mod` as written returns 1 for 0 - 1 modulo 7 on 32-bit T,
      where the modular difference is 6. */
  lemma MinusModAsWrittenIsWrong()
    ensures Modder(32, 7).Valid()
    ensures Modder(32, 7).MinusModAsWritten(0, 1) == 1
    ensures Modder(32, 7).MinusMod(0, 1) == 6
  {
    var md := Modder(32, 7);
    assert md.Valid() by {
      StandardWidths();
      Pow2Of32();
    }
    assert md.WideBound() == 0x1_0000_0000_0000_0000 by {
      assert BiggerWidth(32) == 64;
      Pow2Of64();
    }
    assert md.Modulus() == 7;
    assert (0 - 1) % md.WideBound() == 0xFFFF_FFFF_FFFF_FFFF;
    assert md.MinusModAsWritten(0, 1) == 0xFFFF_FFFF_FFFF_FFFF % 7;
    assert md.MinusMod(0, 1) == (0 - 1) % 7;
  }
}

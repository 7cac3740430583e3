/** `LCGAffineTransform<T>`: one LCG step `x -> (a*x + c) mod M` given by
    its modder and two coefficients, with the algebra the source defines on
    it: pointwise sum and difference, composition, the identity, and
    exponentiation by `double_and_add`.

    The source's transform is copied by value (`+`, `-` and `compose` take
    the left operand by value, `powered` and the engine hold copies), so
    the datatype `Transform` is that value and each operator is a function
    on it. The members that update a transform in place (`+=`, `-=`,
    `compose_assign`, `set_a`, `set_c`, `set_m`) are methods of the class
    `AffineTransform`, each proved to leave the value the corresponding
    function computes. `==` is the structural equality of (modder, a, c). */
module Affine {
  import opened Arith
  import opened Modular
  import FastCombine

  datatype Transform = Transform(md: Modder, a: nat, c: nat) {

    /** Every field holds a value of T. */
    predicate WellFormed() {
      md.Valid() && a < md.Bound() && c < md.Bound()
    }

    /** The coefficients are residues mod M. Construction and every
        operation establish this; `set_m` does not re-establish it. */
    predicate Normalized() {
      WellFormed() && a < md.Modulus() && c < md.Modulus()
    }
  }

  /** The constructor `LCGAffineTransform(a, c, m)` on W-bit T. */
  function New(w: nat, a: nat, c: nat, m: nat := 0): (f: Transform)
    requires IsWidth(w) && a < Pow2(w) && c < Pow2(w) && m < Pow2(w)
    ensures f.Normalized() && f.md == Modder(w, m)
    ensures f.a == a % f.md.Modulus() && f.c == c % f.md.Modulus()
  {
    var md := Modder(w, m);
    Transform(md, md.Reduce(a), md.Reduce(c))
  }

  /** Coefficients that are already residues are stored unchanged. */
  lemma NewOfResidues(w: nat, a: nat, c: nat, m: nat)
    requires IsWidth(w) && m < Pow2(w) && 0 < m && a < m && c < m
    ensures New(w, a, c, m) == Transform(Modder(w, m), a, c)
  {
    ModOfSmall(a, m);
    ModOfSmall(c, m);
  }

  /** The transform after `set_a`: the new coefficient reduced mod M. */
  function WithA(f: Transform, a: nat): (g: Transform)
    requires f.WellFormed() && a < f.md.Bound()
    ensures g.WellFormed() && g.md == f.md && g.c == f.c
    ensures g.a == a % f.md.Modulus()
    ensures f.Normalized() ==> g.Normalized()
  {
    f.(a := f.md.Reduce(a))
  }

  /** The transform after `set_c`: the new increment reduced mod M. */
  function WithC(f: Transform, c: nat): (g: Transform)
    requires f.WellFormed() && c < f.md.Bound()
    ensures g.WellFormed() && g.md == f.md && g.a == f.a
    ensures g.c == c % f.md.Modulus()
    ensures f.Normalized() ==> g.Normalized()
  {
    f.(c := f.md.Reduce(c))
  }

  /** The transform after `set_m`: the stored modulus replaced and nothing
      else; the coefficients are NOT renormalized. */
  function WithM(f: Transform, m: nat): (g: Transform)
    requires f.WellFormed() && m < f.md.Bound()
    ensures g.WellFormed() && g.md == Modder(f.md.w, m)
    ensures g.a == f.a && g.c == f.c
    ensures m == 0 ==> g.Normalized()
    ensures m != 0 ==> (g.Normalized() <==> f.a < m && f.c < m)
  {
    f.(md := Modder(f.md.w, m))
  }

  /** `operator()(x)`: one LCG step. */
  function Apply(f: Transform, x: nat): (r: nat)
    requires f.WellFormed() && x < f.md.Bound()
    ensures r < f.md.Modulus() && r < f.md.Bound()
    ensures r == (f.a * x + f.c) % f.md.Modulus()
  {
    f.md.TimesPlusMod(f.a, x, f.c)
  }

  /** `x` after `n` sequential steps of `f`. */
  ghost function Iterate(f: Transform, x: nat, n: nat): (r: nat)
    requires f.WellFormed() && x < f.md.Bound()
    ensures r < f.md.Bound()
    ensures n > 0 ==> r < f.md.Modulus()
    decreases n
  {
    if n == 0 then x else Iterate(f, Apply(f, x), n - 1)
  }

  lemma AddPair(x: nat, y: nat, md: Modder)
    requires x < md.Bound() && y < md.Bound()
    ensures md.InternalSum([x, y]) == x + y
  {
    assert [x, y][1..] == [y];
    assert [y][1..] == [];
  }

  /** `operator+=` / `operator+`: coefficientwise `plus_mod`. */
  function Add(f: Transform, g: Transform): (h: Transform)
    requires f.WellFormed() && g.WellFormed() && f.md == g.md
    ensures h.Normalized() && h.md == f.md
    ensures h.a == (f.a + g.a) % f.md.Modulus() && h.c == (f.c + g.c) % f.md.Modulus()
  {
    f.md.BoundAtLeast256();
    AddPair(f.a, g.a, f.md);
    AddPair(f.c, g.c, f.md);
    Transform(f.md, f.md.PlusMod([f.a, g.a]), f.md.PlusMod([f.c, g.c]))
  }

  /** `operator-=` / `operator-`: coefficientwise `minus_mod`, in its
      corrected form (see `Modular.MinusModAsWritten`). */
  function Sub(f: Transform, g: Transform): (h: Transform)
    requires f.WellFormed() && g.WellFormed() && f.md == g.md
    ensures h.Normalized() && h.md == f.md
    ensures h.a == (f.a - g.a) % f.md.Modulus() && h.c == (f.c - g.c) % f.md.Modulus()
  {
    Transform(f.md, f.md.MinusMod(f.a, g.a), f.md.MinusMod(f.c, g.c))
  }

  /** The source's `-` as written: coefficientwise `minus_mod` with the
      wrap modulo 2^K (see `Modular.MinusModAsWritten`). */
  function SubAsWritten(f: Transform, g: Transform): (h: Transform)
    requires f.WellFormed() && g.WellFormed() && f.md == g.md
    ensures h.Normalized() && h.md == f.md
    ensures h.a == ((f.a - g.a) % f.md.WideBound()) % f.md.Modulus()
    ensures h.c == ((f.c - g.c) % f.md.WideBound()) % f.md.Modulus()
  {
    Transform(f.md, f.md.MinusModAsWritten(f.a, g.a), f.md.MinusModAsWritten(f.c, g.c))
  }

  /** Where M divides 2^K (every power-of-two modulus), the as-written
      subtraction is the modelled one. */
  lemma SubAsWrittenAgrees(f: Transform, g: Transform)
    requires f.WellFormed() && g.WellFormed() && f.md == g.md
    requires f.md.WideBound() % f.md.Modulus() == 0
    ensures SubAsWritten(f, g) == Sub(f, g)
  {
    MinusModAgreesOnPowerOfTwoModuli(f.md, f.a, g.a);
    MinusModAgreesOnPowerOfTwoModuli(f.md, f.c, g.c);
  }

  /** Under `minstd_rand`'s modulus 2^31 - 1 the as-written `-` of a = 0
      and a = 1 leaves 3 where the modular difference is 2^31 - 2. */
  lemma SubAsWrittenDiffersForMinstd()
    ensures Modder(32, 2147483647).Valid()
    ensures SubAsWritten(Transform(Modder(32, 2147483647), 0, 0), Transform(Modder(32, 2147483647), 1, 0)).a == 3
    ensures Sub(Transform(Modder(32, 2147483647), 0, 0), Transform(Modder(32, 2147483647), 1, 0)).a == 2147483646
  {
    var md := Modder(32, 2147483647);
    assert md.Valid() by {
      StandardWidths();
      Pow2Of32();
    }
    assert md.WideBound() == 0x1_0000_0000_0000_0000 by {
      assert BiggerWidth(32) == 64;
      Pow2Of64();
    }
    var f, g := Transform(md, 0, 0), Transform(md, 1, 0);
    assert md.Modulus() == 2147483647;
    assert (0 - 1) % md.WideBound() == 0xFFFF_FFFF_FFFF_FFFF;
    assert SubAsWritten(f, g).a == 0xFFFF_FFFF_FFFF_FFFF % 2147483647;
    assert Sub(f, g).a == (0 - 1) % 2147483647;
  }

  /** `compose_assign` / `compose`: the transform `x -> f(g(x))`. */
  function Compose(f: Transform, g: Transform): (h: Transform)
    requires f.WellFormed() && g.WellFormed() && f.md == g.md
    ensures h.Normalized() && h.md == f.md
  {
    ProductPair(f.a, g.a);
    Transform(f.md, f.md.TimesMod([f.a, g.a]), f.md.TimesPlusMod(f.a, g.c, f.c))
  }

  lemma ComposeCoefficients(f: Transform, g: Transform)
    requires f.WellFormed() && g.WellFormed() && f.md == g.md
    ensures Compose(f, g).a == (f.a * g.a) % f.md.Modulus()
    ensures Compose(f, g).c == (f.a * g.c + f.c) % f.md.Modulus()
  {
    f.md.TimesModPair(f.a, g.a);
  }

  /** `identity()`: `a = 1, c = 0` under the same modulus. */
  function Identity(f: Transform): (e: Transform)
    requires f.WellFormed()
    ensures e.Normalized() && e.md == f.md
  {
    f.md.BoundAtLeast256();
    New(f.md.w, 1, 0, f.md.m)
  }

  /** `min()`: 1 when the increment is zero, else 0. */
  function Min(f: Transform): (r: nat)
    ensures r <= 1
  {
    if f.c == 0 then 1 else 0
  }

  /** `max()`: `m - 1` in T's arithmetic, which wraps to 2^W - 1 under
      the sentinel; in both cases the largest residue. */
  function Max(f: Transform): (r: nat)
    requires f.WellFormed()
    ensures r == f.md.Modulus() - 1
  {
    var b := f.md.Bound();
    if f.md.m == 0 then
      ModOfSmall(b - 1, b);
      (f.md.m + b - 1) % b
    else
      ModAddMultiple(f.md.m - 1, b, 1);
      ModOfSmall(f.md.m - 1, b);
      (f.md.m + b - 1) % b
  }

  /** The composer lambda of `powered`. */
  function ComposeOp(): (op: (Transform, Transform) --> Transform) {
    (f: Transform, g: Transform) requires f.WellFormed() && g.WellFormed() && f.md == g.md => Compose(f, g)
  }

  /** Transforms over the modder `md`. */
  function Over(md: Modder): (isOver: Transform -> bool) {
    (g: Transform) => g.WellFormed() && g.md == md
  }

  /** Normalized transforms over the modder `md`. */
  function NormalizedOver(md: Modder): (isNormalizedOver: Transform -> bool) {
    (g: Transform) => g.Normalized() && g.md == md
  }

  // ---------------------------------------------------------------------
  // Arithmetic behind the laws

  lemma ComposeArith(fa: int, fc: int, ga: int, gc: int, ha: int, hc: int, x: int, m: int)
    requires m > 0 && ha == (fa * ga) % m && hc == (fa * gc + fc) % m
    ensures (ha * x + hc) % m == (fa * ((ga * x + gc) % m) + fc) % m
  {
    ModIdempotent(fa * ga, m);
    MulCongruent((fa * ga) % m, fa * ga, x, m);
    ModIdempotent(fa * gc + fc, m);
    AddCongruent(((fa * ga) % m) * x, (fa * ga) * x, (fa * gc + fc) % m, fa * gc + fc, m);
    ModIdempotent(ga * x + gc, m);
    MulCongruent((ga * x + gc) % m, ga * x + gc, fa, m);
    AddCongruent(fa * ((ga * x + gc) % m), fa * (ga * x + gc), fc, fc, m);
    assert (fa * ga) * x + (fa * gc + fc) == fa * (ga * x + gc) + fc;
  }

  lemma AddArith(fa: int, fc: int, ga: int, gc: int, ha: int, hc: int, x: int, m: int)
    requires m > 0 && ha == (fa + ga) % m && hc == (fc + gc) % m
    ensures (ha * x + hc) % m == ((fa * x + fc) % m + (ga * x + gc) % m) % m
  {
    var d, e := fa + ga, fc + gc;
    var u, v := fa * x + fc, ga * x + gc;
    MulDistributes(fa, ga, x);
    assert d * x + e == u + v;
    ModIdempotent(d, m);
    MulCongruent(ha, d, x, m);
    ModIdempotent(e, m);
    AddCongruent(ha * x, d * x, hc, e, m);
    ModIdempotent(u, m);
    ModIdempotent(v, m);
    AddCongruent(u % m, u, v % m, v, m);
  }

  lemma SubArith(fa: int, fc: int, ga: int, gc: int, ha: int, hc: int, x: int, m: int)
    requires m > 0 && ha == (fa - ga) % m && hc == (fc - gc) % m
    ensures (ha * x + hc) % m == ((fa * x + fc) % m - (ga * x + gc) % m) % m
  {
    var d, e := fa - ga, fc - gc;
    var u, v := fa * x + fc, ga * x + gc;
    MulDistributes(fa, ga, x);
    assert d * x + e == u - v;
    ModIdempotent(d, m);
    MulCongruent(ha, d, x, m);
    ModIdempotent(e, m);
    AddCongruent(ha * x, d * x, hc, e, m);
    ModIdempotent(u, m);
    ModIdempotent(v, m);
    SubCongruent(u % m, u, v % m, v, m);
  }

  // ---------------------------------------------------------------------
  // Laws

  /** Composition is function composition: compose(f, g)(x) == f(g(x)). */
  lemma ComposeApply(f: Transform, g: Transform, x: nat)
    requires f.WellFormed() && g.WellFormed() && f.md == g.md && x < f.md.Bound()
    ensures Apply(Compose(f, g), x) == Apply(f, Apply(g, x))
  {
    ComposeCoefficients(f, g);
    var h := Compose(f, g);
    ComposeArith(f.a, f.c, g.a, g.c, h.a, h.c, x, f.md.Modulus());
  }

  lemma ComposeAssociative(f: Transform, g: Transform, h: Transform)
    requires f.WellFormed() && g.WellFormed() && h.WellFormed()
    requires f.md == g.md == h.md
    ensures Compose(Compose(f, g), h) == Compose(f, Compose(g, h))
  {
    var m := f.md.Modulus();
    var fg, gh := Compose(f, g), Compose(g, h);
    ComposeCoefficients(f, g);
    ComposeCoefficients(g, h);
    var left, right := Compose(fg, h), Compose(f, gh);
    ComposeCoefficients(fg, h);
    ComposeCoefficients(f, gh);
    assert left.a == right.a by {
      MulModAssociativeAt(f.a, g.a, h.a, m);
    }
    assert left.c == right.c by {
      ComposeArith(f.a, f.c, g.a, g.c, fg.a, fg.c, h.c, m);
    }
  }

  /** The identity transform is the identity map on residues. */
  lemma IdentityApply(f: Transform, x: nat)
    requires f.WellFormed() && x < f.md.Bound()
    ensures Apply(Identity(f), x) == x % f.md.Modulus()
  {
    IdentityCoefficients(f);
    UnitArith(x, f.md.Modulus());
  }

  lemma IdentityCoefficients(f: Transform)
    requires f.WellFormed()
    ensures Identity(f).a == 1 % f.md.Modulus() && Identity(f).c == 0
  {
    f.md.BoundAtLeast256();
  }

  lemma UnitArith(x: int, m: int)
    requires m > 0
    ensures ((1 % m) * x + 0) % m == x % m
    ensures (x * (1 % m)) % m == x % m
  {
    ModIdempotent(1, m);
    MulCongruent(1 % m, 1, x, m);
  }

  /** `identity()` is a two-sided unit of composition on normalized transforms. */
  lemma ComposeIdentity(f: Transform)
    requires f.Normalized()
    ensures Compose(f, Identity(f)) == f
    ensures Compose(Identity(f), f) == f
  {
    var e, m := Identity(f), f.md.Modulus();
    IdentityCoefficients(f);
    ComposeCoefficients(f, e);
    ComposeCoefficients(e, f);
    UnitArith(f.a, m);
    UnitArith(f.c, m);
    ModOfSmall(f.a, m);
    ModOfSmall(f.c, m);
  }

  /** (f + g)(x) == f(x) + g(x) mod M. */
  lemma AddApply(f: Transform, g: Transform, x: nat)
    requires f.WellFormed() && g.WellFormed() && f.md == g.md && x < f.md.Bound()
    ensures Apply(Add(f, g), x) == (Apply(f, x) + Apply(g, x)) % f.md.Modulus()
  {
    var h := Add(f, g);
    AddArith(f.a, f.c, g.a, g.c, h.a, h.c, x, f.md.Modulus());
  }

  /** (f - g)(x) == f(x) - g(x) mod M. */
  lemma SubApply(f: Transform, g: Transform, x: nat)
    requires f.WellFormed() && g.WellFormed() && f.md == g.md && x < f.md.Bound()
    ensures Apply(Sub(f, g), x) == (Apply(f, x) - Apply(g, x)) % f.md.Modulus()
  {
    var h := Sub(f, g);
    SubArith(f.a, f.c, g.a, g.c, h.a, h.c, x, f.md.Modulus());
  }

  /** Subtraction undoes addition. */
  lemma SubAddCancel(f: Transform, g: Transform)
    requires f.Normalized() && g.WellFormed() && f.md == g.md
    ensures Sub(Add(f, g), g) == f
  {
    var m := f.md.Modulus();
    var s := Add(f, g);
    var d := Sub(s, g);
    AddSubArith(f.a, g.a, s.a, d.a, m);
    AddSubArith(f.c, g.c, s.c, d.c, m);
  }

  lemma AddSubArith(x: int, y: int, s: int, d: int, m: int)
    requires 0 <= x < m && s == (x + y) % m && d == (s - y) % m
    ensures d == x
  {
    ModIdempotent(x + y, m);
    SubCongruent((x + y) % m, x + y, y, y, m);
    ModOfSmall(x, m);
  }

  /** Every output of a step is at most `max()`. */
  lemma ApplyAtMostMax(f: Transform, x: nat)
    requires f.WellFormed() && x < f.md.Bound()
    ensures Apply(f, x) <= Max(f)
  {
  }

  /** `min()` is 1 exactly when 0 is a fixed point of the step, the one
      state a generator without increment could never leave. */
  lemma MinOneIffZeroFixed(f: Transform)
    requires f.Normalized()
    ensures Min(f) == 1 <==> Apply(f, 0) == 0
  {
    ModOfSmall(f.c, f.md.Modulus());
  }

  // ---------------------------------------------------------------------
  // `powered`: the n-th power under composition

  lemma ComposeLaws(md: Modder)
    requires md.Valid()
    ensures FastCombine.Closed(ComposeOp(), Over(md))
    ensures FastCombine.Associative(ComposeOp(), Over(md))
    ensures FastCombine.Closed(ComposeOp(), NormalizedOver(md))
    ensures FastCombine.Associative(ComposeOp(), NormalizedOver(md))
  {
    var op := ComposeOp();
    forall f, g, h | Over(md)(f) && Over(md)(g) && Over(md)(h)
      ensures op(op(f, g), h) == op(f, op(g, h))
    {
      ComposeAssociative(f, g, h);
    }
  }

  /** The identity of `f`'s modulus is a two-sided unit on the normalized
      transforms over that modulus. */
  lemma IdentityIsUnit(f: Transform)
    requires f.WellFormed()
    ensures FastCombine.Closed(ComposeOp(), NormalizedOver(f.md))
    ensures FastCombine.IsUnit(ComposeOp(), NormalizedOver(f.md), Identity(f))
  {
    ComposeLaws(f.md);
    forall g | NormalizedOver(f.md)(g)
      ensures ComposeOp()(Identity(f), g) == g && ComposeOp()(g, Identity(f)) == g
    {
      assert Identity(g) == Identity(f);
      ComposeIdentity(g);
    }
  }

  /** `f` composed with itself `n` times, starting from the identity. */
  ghost function Pow(f: Transform, n: nat): (p: Transform)
    requires f.WellFormed()
    ensures p.WellFormed() && p.md == f.md
  {
    ComposeLaws(f.md);
    FastCombine.Power(ComposeOp(), Over(f.md), Identity(f), f, n)
  }

  lemma {:induction false} PowNormalized(f: Transform, n: nat)
    requires f.WellFormed()
    ensures Pow(f, n).Normalized()
  {
    ComposeLaws(f.md);
    if n > 0 {
      PowStep(f, n);
    }
  }

  /** `powered(n)`: `double_and_add` with `compose` and `identity()`. */
  method Powered(f: Transform, n: nat) returns (r: Transform)
    requires f.WellFormed() && n < FastCombine.ULL_BOUND
    ensures r == Pow(f, n) && r.Normalized()
  {
    ComposeLaws(f.md);
    r := FastCombine.DoubleAndAdd(f, n, ComposeOp(), Identity(f), Over(f.md));
    PowNormalized(f, n);
  }

  /** The jump-ahead law: applying the n-th power is stepping n times,
      reduced once more (which only matters for n == 0 and x >= M). */
  lemma {:induction false} PowApply(f: Transform, x: nat, n: nat)
    requires f.WellFormed() && x < f.md.Bound()
    ensures Apply(Pow(f, n), x) == Iterate(f, x, n) % f.md.Modulus()
    decreases n
  {
    if n == 0 {
      IdentityApply(f, x);
    } else {
      var p, y := Pow(f, n - 1), Apply(f, x);
      PowStep(f, n);
      ComposeApply(p, f, x);
      PowApply(f, y, n - 1);
      assert Iterate(f, x, n) == Iterate(f, y, n - 1);
    }
  }

  lemma PowStep(f: Transform, n: nat)
    requires f.WellFormed() && n > 0
    ensures Pow(f, n) == Compose(Pow(f, n - 1), f)
  {
    ComposeLaws(f.md);
  }

  /** Once a step has been taken, or from a residue, the power gives the
      stepped value itself. */
  lemma PowApplyExact(f: Transform, x: nat, n: nat)
    requires f.WellFormed() && x < f.md.Bound()
    requires n > 0 || x < f.md.Modulus()
    ensures Apply(Pow(f, n), x) == Iterate(f, x, n)
  {
    PowApply(f, x, n);
    ModOfSmall(Iterate(f, x, n), f.md.Modulus());
  }

  /** Stepping i times and then j times is stepping i + j times. */
  lemma {:induction false} IterateAdd(f: Transform, x: nat, i: nat, j: nat)
    requires f.WellFormed() && x < f.md.Bound()
    ensures Iterate(f, x, i + j) == Iterate(f, Iterate(f, x, i), j)
    decreases i
  {
    if i > 0 {
      IterateAdd(f, Apply(f, x), i - 1, j);
    }
  }

  /** The first power of a normalized transform is itself. */
  lemma PowOne(f: Transform)
    requires f.Normalized()
    ensures Pow(f, 1) == f
  {
    ComposeLaws(f.md);
    assert Pow(f, 1) == Compose(Identity(f), f);
    ComposeIdentity(f);
  }

  /** Powers add under composition: f^i . f^j == f^(i+j), for every
      transform, normalized or not. */
  lemma PowAdd(f: Transform, i: nat, j: nat)
    requires f.WellFormed()
    ensures Compose(Pow(f, i), Pow(f, j)) == Pow(f, i + j)
  {
    var g := Norm(f);
    PowNorm(f, i);
    PowNorm(f, j);
    PowNorm(f, i + j);
    PowAddOfNormalized(g, i, j);
  }

  lemma PowAddOfNormalized(f: Transform, i: nat, j: nat)
    requires f.Normalized()
    ensures Compose(Pow(f, i), Pow(f, j)) == Pow(f, i + j)
  {
    var op, carrier, unit := ComposeOp(), NormalizedOver(f.md), Identity(f);
    PowOnNormalized(f, i);
    PowOnNormalized(f, j);
    PowOnNormalized(f, i + j);
    calc {
      Compose(Pow(f, i), Pow(f, j));
      Compose(FastCombine.Power(op, carrier, unit, f, i), FastCombine.Power(op, carrier, unit, f, j));
      { PowAddNormalized(f, i, j); }
      FastCombine.Power(op, carrier, unit, f, i + j);
    }
  }

  lemma PowAddNormalized(f: Transform, i: nat, j: nat)
    requires f.Normalized()
    ensures FastCombine.Closed(ComposeOp(), NormalizedOver(f.md))
    ensures Compose(FastCombine.Power(ComposeOp(), NormalizedOver(f.md), Identity(f), f, i),
                    FastCombine.Power(ComposeOp(), NormalizedOver(f.md), Identity(f), f, j))
         == FastCombine.Power(ComposeOp(), NormalizedOver(f.md), Identity(f), f, i + j)
  {
    var op, unit, carrier := ComposeOp(), Identity(f), NormalizedOver(f.md);
    ComposeLaws(f.md);
    IdentityIsUnit(f);
    FastCombine.PowerAdd(op, carrier, unit, f, i, j);
    var x := FastCombine.Power(op, carrier, unit, f, i);
    var y := FastCombine.Power(op, carrier, unit, f, j);
    ComposeOpAt(x, y);
  }

  lemma ComposeOpAt(f: Transform, g: Transform)
    requires f.WellFormed() && g.WellFormed() && f.md == g.md
    ensures ComposeOp().requires(f, g) && ComposeOp()(f, g) == Compose(f, g)
  {
  }

  /** For a normalized transform, Pow may be computed within the
      normalized carrier. */
  lemma PowOnNormalized(f: Transform, n: nat)
    requires f.Normalized()
    ensures FastCombine.Closed(ComposeOp(), NormalizedOver(f.md))
    ensures Pow(f, n) == FastCombine.Power(ComposeOp(), NormalizedOver(f.md), Identity(f), f, n)
  {
    ComposeLaws(f.md);
    FastCombine.PowerCarrier(ComposeOp(), Over(f.md), NormalizedOver(f.md), Identity(f), f, n);
  }

  /** Powers multiply: (f^p)^q == f^(p*q), for every transform. */
  lemma PowMul(f: Transform, p: nat, q: nat)
    requires f.WellFormed()
    ensures Pow(Pow(f, p), q) == Pow(f, p * q)
  {
    var g := Norm(f);
    var k: nat := p * q;
    PowNorm(f, p);
    PowNorm(f, k);
    PowMulOfNormalized(g, p, q);
  }

  lemma PowMulOfNormalized(f: Transform, p: nat, q: nat)
    requires f.Normalized()
    ensures Pow(Pow(f, p), q) == Pow(f, p * q)
  {
    var e := Pow(f, p);
    var k: nat := p * q;
    PowNormalized(f, p);
    assert Identity(e) == Identity(f) && e.md == f.md;
    PowOnNormalized(f, p);
    PowOnNormalized(e, q);
    PowOnNormalized(f, k);
    PowMulNormalized(f, p, q);
  }

  /** The transform the constructor builds from f's stored coefficients
      and modulus: both coefficients reduced mod M, which is what `f` acts
      as on residues. */
  function Norm(f: Transform): (g: Transform)
    requires f.WellFormed()
    ensures g.Normalized() && g.md == f.md
    ensures g.a == f.a % f.md.Modulus() && g.c == f.c % f.md.Modulus()
  {
    New(f.md.w, f.a, f.c, f.md.m)
  }

  /** Composing with f on the right is composing with its reduction. */
  lemma ComposeRightNorm(x: Transform, f: Transform)
    requires x.WellFormed() && f.WellFormed() && x.md == f.md
    ensures Compose(x, f) == Compose(x, Norm(f))
  {
    var g, m := Norm(f), f.md.Modulus();
    ComposeCoefficients(x, f);
    ComposeCoefficients(x, g);
    NormArith(x.a, x.c, f.a, f.c, g.a, g.c, m);
  }

  lemma NormArith(xa: int, xc: int, fa: int, fc: int, ga: int, gc: int, m: int)
    requires m > 0 && ga == fa % m && gc == fc % m
    ensures (xa * fa) % m == (xa * ga) % m
    ensures (xa * fc + xc) % m == (xa * gc + xc) % m
  {
    ModIdempotent(fa, m);
    MulCongruent(ga, fa, xa, m);
    ModIdempotent(fc, m);
    MulCongruent(gc, fc, xa, m);
    AddCongruent(xa * fc, xa * gc, xc, xc, m);
  }

  /** The powers of f are the powers of its reduction. */
  lemma {:induction false} PowNorm(f: Transform, n: nat)
    requires f.WellFormed()
    ensures Pow(f, n) == Pow(Norm(f), n)
    decreases n
  {
    var g := Norm(f);
    assert Identity(g) == Identity(f);
    if n == 0 {
      ComposeLaws(f.md);
    } else {
      PowStep(f, n);
      PowStep(g, n);
      PowNorm(f, n - 1);
      ComposeRightNorm(Pow(f, n - 1), f);
    }
  }

  lemma PowMulNormalized(f: Transform, p: nat, q: nat)
    requires f.Normalized()
    ensures FastCombine.Closed(ComposeOp(), NormalizedOver(f.md))
    ensures
      var e := FastCombine.Power(ComposeOp(), NormalizedOver(f.md), Identity(f), f, p);
      FastCombine.Power(ComposeOp(), NormalizedOver(f.md), Identity(f), e, q)
        == FastCombine.Power(ComposeOp(), NormalizedOver(f.md), Identity(f), f, p * q)
  {
    ComposeLaws(f.md);
    IdentityIsUnit(f);
    FastCombine.PowerMul(ComposeOp(), NormalizedOver(f.md), Identity(f), f, p, q);
  }

  // ---------------------------------------------------------------------
  // The in-place members

  /** A transform object whose members update it in place. */
  class AffineTransform {
    var md: Modder
    var a: nat
    var c: nat

    /** The value the object currently holds. */
    function Value(): (v: Transform)
      reads this
    {
      Transform(md, a, c)
    }

    constructor (w: nat, a0: nat, c0: nat, m: nat := 0)
      requires IsWidth(w) && a0 < Pow2(w) && c0 < Pow2(w) && m < Pow2(w)
      ensures Value() == New(w, a0, c0, m)
    {
      var md0 := Modder(w, m);
      md := md0;
      a := md0.Reduce(a0);
      c := md0.Reduce(c0);
    }

    method SetA(x: nat)
      requires Value().WellFormed() && x < md.Bound()
      modifies this
      ensures Value() == WithA(old(Value()), x)
    {
      a := md.Reduce(x);
    }

    method SetC(x: nat)
      requires Value().WellFormed() && x < md.Bound()
      modifies this
      ensures Value() == WithC(old(Value()), x)
    {
      c := md.Reduce(x);
    }

    method SetM(m: nat)
      requires Value().WellFormed() && m < md.Bound()
      modifies this
      ensures Value() == WithM(old(Value()), m)
    {
      md := md.(m := m);
    }

    /** `+=`; `rhs` may be this very object. */
    method AddAssign(rhs: AffineTransform)
      requires Value().WellFormed() && rhs.Value().WellFormed() && md == rhs.md
      modifies this
      ensures Value() == Add(old(Value()), old(rhs.Value()))
    {
      md.BoundAtLeast256();
      AddPair(a, rhs.a, md);
      a := md.PlusMod([a, rhs.a]);
      AddPair(c, rhs.c, md);
      c := md.PlusMod([c, rhs.c]);
    }

    /** `-=`; `rhs` may be this very object. */
    method SubAssign(rhs: AffineTransform)
      requires Value().WellFormed() && rhs.Value().WellFormed() && md == rhs.md
      modifies this
      ensures Value() == Sub(old(Value()), old(rhs.Value()))
    {
      a := md.MinusMod(a, rhs.a);
      c := md.MinusMod(c, rhs.c);
    }

    /** `compose_assign`: this becomes `this . rhs`; both new coefficients
        are computed before either is stored, so `rhs` may be this object. */
    method ComposeAssign(rhs: AffineTransform)
      requires Value().WellFormed() && rhs.Value().WellFormed() && md == rhs.md
      modifies this
      ensures Value() == Compose(old(Value()), old(rhs.Value()))
    {
      var newA := md.TimesMod([a, rhs.a]);
      var newC := md.TimesPlusMod(a, rhs.c, c);
      a := newA;
      c := newC;
    }
  }
}

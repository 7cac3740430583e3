# lcg-predict in Dafny

A model of the core of `lcg-predict`, a C++ header that computes future
outputs of a linear congruential generator `x' = (a*x + c) mod M`. It
computes the n-th output with O(log n) compositions of affine maps instead
of n steps. The model has four layers, one Dafny module each, plus one
module for the number-theory file and one for the presets:

- `Arith`: powers of two, C++'s truncating remainder, and the laws of `%`
  the rest relies on.
- `Modular`: `detail::UnsignedModder<T>`. T is an unsigned type of width
  W ∈ {8, 16, 32, 64}. The modder stores `m`, where `m == 0` is a sentinel
  for M = 2^W. Values of T are naturals below 2^W. The doubled-width type
  that the source picks at compile time becomes the width `BiggerWidth(W)`,
  chosen exactly as the source's finder chooses it on an LP64 platform.
  Every intermediate is proved to stay below 2^BiggerWidth(W), so no wide
  computation can wrap. `minus_mod` is the one exception (see Findings).
- `FastCombine`: `detail::double_and_add`, a loop over the bits of `n`
  that takes the operation as a function value.
  - The loop always returns the left fold `unit op elem op ... op elem`.
  - It needs only associativity on a carrier closed under the operation.
    The doc comment's commutativity requirement is never used.
  - The unit is needed only to show that this fold equals `elem op ... op elem`.
- `Affine`: `LCGAffineTransform<T>`. The value type is the datatype
  `Transform`, and its operators are functions on it. The members that
  update a transform in place belong to the class `AffineTransform`.
  Each of them is proved to leave exactly the value the matching function
  computes.
- `Engine`: `LCGEngine<T>`, a class holding a `Transform` and the state.
  It is proved that prediction (`value_after_n_steps`, `discard`) agrees
  with stepping, up to a reduction mod M that matters only for n == 0 with
  a state at or above M (reachable after `set_m`, which does not reduce
  the state). This is the property the test suite checks for 1000 steps.
- `NumberTheory`: `gcd_ext` and `inv_mod`, including the hand-made first
  Euclid step for the sentinel modulus.
- `Presets`: three of the preset generators, used as concrete checks.
  Each one's first outputs are proved to match the published sequence.

The core has no clocks, I/O or randomness. "The state after n steps" is
the ghost function `Affine.Iterate`, and every prediction is stated against
it.

## Model

| member | source | states |
|---|---|---|
| Arith.TruncRem | src/include/lcg_predict.hpp:167 | C++ `%` on a signed operand: the remainder lies strictly between -m and m, has the sign of the dividend and differs from it by a multiple of m |
| Modular.Finder | src/include/lcg_predict.hpp:39-50 | the finder returns the first candidate at least twice the width of T, or the last candidate when none is that wide; every candidate before the returned one is narrower than 2W |
| Modular.BiggerWidth | src/include/lcg_predict.hpp:56-62 | the doubled unsigned type is at least twice as wide as T, for every width of T |
| Modular.Modder.WideBound | src/include/lcg_predict.hpp:119 | the doubled type holds at least 2 * 2^W values |
| Modular.Modder.Modulus | src/include/lcg_predict.hpp:147-152 | `real_m` lies in [1, 2^W] and equals 2^W exactly when the stored m is the sentinel 0 |
| Modular.Modder.Reduce | src/include/lcg_predict.hpp:154-160 | reducing any unsigned operand of the doubled width gives x mod M, below M and below 2^W, so the cast to T loses nothing |
| Modular.Modder.ReduceSigned | src/include/lcg_predict.hpp:162-169 | for a signed operand in the doubled signed range, the truncating remainder, lifted by M when negative, is the non-negative residue x mod M |
| Modular.Modder.InternalSum | src/include/lcg_predict.hpp:122-131 | the wide sum of k operands of T is at most k * (2^W - 1) |
| Modular.Modder.PlusMod | src/include/lcg_predict.hpp:176-180 | `plus_mod` is the exact sum of its operands mod M |
| Modular.Modder.InternalProdMod | src/include/lcg_predict.hpp:133-142 | reducing after every wide product gives the exact product mod M |
| Modular.Modder.TimesMod | src/include/lcg_predict.hpp:187-191 | `times_mod` is the exact product of its operands mod M |
| Modular.Modder.TimesModPair | src/include/lcg_predict.hpp:187-191 | `times_mod(x, y)` is x*y mod M |
| Modular.Modder.MinusModAsWritten | src/include/lcg_predict.hpp:182-185 | `minus_mod` as written: the difference is taken modulo 2^K (wrap-around in the doubled type) and then reduced mod M |
| Modular.Modder.MinusMod | src/include/lcg_predict.hpp:182-185 | corrected `minus_mod`: the result is (x - y) mod M for every x and y, including x < y |
| Modular.Modder.TimesPlusMod | src/include/lcg_predict.hpp:193-196 | `times_plus_mod(x, y, z)` is (x*y + z) mod M |
| Modular.Modder.TimesPlusPlusMod | src/include/lcg_predict.hpp:198-201 | `times_plus_plus_mod(x, y, z, w)` is (x*y + z + w) mod M |
| Modular.Modder.StepFits | src/include/lcg_predict.hpp:195 | for operands of T, x*y + z + w stays below 2^K, so the wide computation cannot wrap |
| Modular.Modder.ProductFits | src/include/lcg_predict.hpp:141 | the product of two values of T fits the doubled type |
| Modular.Modder.WideBoundCovers | src/include/lcg_predict.hpp:62 | 2^W * 2^W is at most 2^K: the doubled type holds every product |
| Modular.Modder.BoundAtLeast256 | src/include/lcg_predict.hpp:115-117 | every unsigned T has at least 256 values, which is enough room for the literal 1 and for two-operand sums |
| Modular.NoWideOverflow | src/include/lcg_predict.hpp:193-201 | x*y + z + w < b*b whenever x, y, z, w < b, the bound behind the overflow-safety claim |
| Modular.MulModAt | src/include/lcg_predict.hpp:205-209 | the `mul_mod` lambda of `pow_mod` accepts any two values of T and returns their product mod M |
| Modular.MulModIsAssociative | src/include/lcg_predict.hpp:205-209 | `mul_mod` is closed on the values of T and associative, so `double_and_add` may use it |
| Modular.MulModPower | src/include/lcg_predict.hpp:210 | the n-fold `mul_mod` fold of b, started from `(*this)(1)`, is b^n mod M |
| Modular.PowMod | src/include/lcg_predict.hpp:203-211 | `pow_mod(b, e)` is b^e mod M |
| Modular.SentinelReduce | src/include/lcg_predict.hpp:115 | under the sentinel, 2^W reduces to 0 and 2^W - 1 reduces to itself |
| Modular.MinusModAgreesOnPowerOfTwoModuli | src/include/lcg_predict.hpp:182-185 | when M divides 2^K (every power-of-two modulus) the as-written `minus_mod` is correct |
| Modular.MinusModAsWrittenIsWrong | src/include/lcg_predict.hpp:184 | with W = 32 and m = 7, `minus_mod(0, 1)` as written gives 1, where (0 - 1) mod 7 is 6 |
| FastCombine.FoldAdd | src/include/lcg_predict.hpp:110 | for an associative operation, squaring a fold of p copies gives the fold of 2p copies (in general, i copies combined with j copies give i + j copies) |
| FastCombine.PowerFold | src/include/lcg_predict.hpp:108 | combining the fold from the unit with i copies and a fold of j copies gives the fold from the unit with i + j copies |
| FastCombine.DoubleAndAdd | src/include/lcg_predict.hpp:97-113 | `double_and_add(elem, n, op, unit)` is `unit` combined with n copies of `elem`, if op is associative on a carrier it is closed on; for n == 0 that is `unit` |
| FastCombine.ShiftCount | src/include/lcg_predict.hpp:106-107 | consuming the low bit of n keeps the count of copies already combined plus the count still to be combined fixed |
| FastCombine.PowerIsFold | src/include/lcg_predict.hpp:99-100 | when `unit` is an identity, the result is `elem op elem op ... op elem` with n copies |
| FastCombine.PowerAdd | src/include/lcg_predict.hpp:99-100 | with an identity, e^i op e^j == e^(i+j) |
| FastCombine.PowerMul | src/include/lcg_predict.hpp:99-100 | with an identity, (e^p)^q == e^(p*q) |
| FastCombine.PowerCarrier | src/include/lcg_predict.hpp:101-102 | the result does not depend on which closed carrier the operation is considered on |
| Affine.New | src/include/lcg_predict.hpp:254-259 | the constructor (stored modulus defaulting to the sentinel 0) stores a mod M and c mod M, so the transform is normalized |
| Affine.NewOfResidues | src/include/lcg_predict.hpp:254-259 | coefficients that are already residues of a nonzero stored modulus are kept as given |
| Affine.WithA | src/include/lcg_predict.hpp:269 | `set_a` stores the coefficient reduced mod M and changes nothing else |
| Affine.WithC | src/include/lcg_predict.hpp:270 | `set_c` stores the increment reduced mod M and changes nothing else |
| Affine.WithM | src/include/lcg_predict.hpp:271 | `set_m` changes only the stored modulus; a and c are kept as they were; under the sentinel 0 the result is always normalized, under a nonzero m exactly when a and c are below m |
| Affine.Apply | src/include/lcg_predict.hpp:276-279 | one step maps x to (a*x + c) mod M |
| Affine.Add | src/include/lcg_predict.hpp:281-293 | for equal moduli, `+` adds the coefficients mod M |
| Affine.Sub | src/include/lcg_predict.hpp:295-307 | for equal moduli, `-` subtracts the coefficients mod M (with the corrected `minus_mod`) |
| Affine.SubAsWritten | src/include/lcg_predict.hpp:295-307 | the source's `-` as written: each coefficient difference wraps modulo 2^K and is then reduced mod M |
| Affine.SubAsWrittenAgrees | src/include/lcg_predict.hpp:295-307 | where M divides 2^K, the as-written `-` equals the modelled `Sub` |
| Affine.SubAsWrittenDiffersForMinstd | src/include/lcg_predict.hpp:182-185 | under modulus 2^31 - 1 on 32-bit T, the as-written `-` of a = 0 and a = 1 yields 3 instead of 2^31 - 2 |
| Affine.Compose | src/include/lcg_predict.hpp:309-324 | `compose` of two transforms over one modulus is a normalized transform over that modulus |
| Affine.ComposeCoefficients | src/include/lcg_predict.hpp:311-316 | the composite has a = f.a*g.a mod M and c = f.a*g.c + f.c mod M |
| Affine.Identity | src/include/lcg_predict.hpp:326-329 | `identity()` is a normalized transform over the same modulus |
| Affine.Min | src/include/lcg_predict.hpp:342 | `min()` is 0 or 1 |
| Affine.Max | src/include/lcg_predict.hpp:343 | `max()` computes m - 1 in T, wrapping under the sentinel; it is M - 1 in every case |
| Affine.Iterate | src/include/lcg_predict.hpp:389-393 | stepping n times stays in T, and below M once at least one step has been taken |
| Affine.ComposeApply | src/include/lcg_predict.hpp:318-319 | compose(f, g)(x) == f(g(x)) for every x |
| Affine.ComposeAssociative | src/include/lcg_predict.hpp:309-324 | composition is associative |
| Affine.IdentityApply | src/include/lcg_predict.hpp:326-329 | the identity maps every x to x mod M |
| Affine.IdentityCoefficients | src/include/lcg_predict.hpp:328 | the identity's coefficients are 1 mod M and 0 |
| Affine.ComposeIdentity | src/include/lcg_predict.hpp:326-329 | compose(f, identity) == f == compose(identity, f) for every normalized f |
| Affine.AddApply | src/include/lcg_predict.hpp:281-293 | (f + g)(x) == f(x) + g(x) mod M |
| Affine.SubApply | src/include/lcg_predict.hpp:295-307 | (f - g)(x) == f(x) - g(x) mod M |
| Affine.SubAddCancel | src/include/lcg_predict.hpp:281-307 | (f + g) - g == f for normalized f |
| Affine.ApplyAtMostMax | src/include/lcg_predict.hpp:342-343 | every output is at most `max()` |
| Affine.MinOneIffZeroFixed | src/include/lcg_predict.hpp:342 | for a normalized transform, `min()` is 1 exactly when 0 is a fixed point of the step |
| Affine.ComposeLaws | src/include/lcg_predict.hpp:333-338 | the `composer` lambda is closed and associative on the transforms over one modulus, so `double_and_add` may use it |
| Affine.IdentityIsUnit | src/include/lcg_predict.hpp:339 | `identity()` is a two-sided unit of the composer on normalized transforms |
| Affine.Pow | src/include/lcg_predict.hpp:331-340 | the n-th power under composition is a transform over the same modulus |
| Affine.PowNormalized | src/include/lcg_predict.hpp:331-340 | every power is normalized |
| Affine.Powered | src/include/lcg_predict.hpp:331-340 | `powered(n)` is the n-th power of f under composition, starting from `identity()` |
| Affine.PowStep | src/include/lcg_predict.hpp:108 | the (n)-th power is the (n-1)-th composed with f |
| Affine.PowApply | src/include/lcg_predict.hpp:395-398 | applying f^n to x gives n sequential steps of f from x, reduced mod M |
| Affine.PowApplyExact | src/include/lcg_predict.hpp:395-398 | when n > 0 or x < M, applying f^n to x gives exactly the state after n steps |
| Affine.IterateAdd | src/include/lcg_predict.hpp:400-403 | i steps followed by j steps are i + j steps |
| Affine.PowOne | src/include/lcg_predict.hpp:331-340 | `powered(1)` of a normalized transform is the transform itself |
| Affine.PowAdd | src/include/lcg_predict.hpp:331-340 | f^i composed with f^j is f^(i+j), for every transform, including one whose coefficients are not reduced after `set_m` |
| Affine.Norm | src/include/lcg_predict.hpp:254-259 | the constructor's normalization applied to a transform's stored coefficients and modulus: both coefficients reduced mod M, normalized, over the same modulus |
| Affine.ComposeRightNorm | src/include/lcg_predict.hpp:309-324 | composing with f on the right gives the same transform as composing with f's reduction |
| Affine.PowNorm | src/include/lcg_predict.hpp:331-340 | every power of f equals the same power of f's reduction |
| Affine.PowMul | src/include/lcg_predict.hpp:331-340 | (f^p)^q == f^(p*q), for every transform |
| Affine.AffineTransform.constructor | src/include/lcg_predict.hpp:254-259 | the constructed object holds the value `New` describes |
| Affine.AffineTransform.SetA | src/include/lcg_predict.hpp:269 | `set_a` in place leaves the value `WithA` computes |
| Affine.AffineTransform.SetC | src/include/lcg_predict.hpp:270 | `set_c` in place leaves the value `WithC` computes |
| Affine.AffineTransform.SetM | src/include/lcg_predict.hpp:271 | `set_m` in place leaves the value `WithM` computes |
| Affine.AffineTransform.AddAssign | src/include/lcg_predict.hpp:281-287 | `+=` leaves this + rhs, computed from the values before the call even when rhs is this object |
| Affine.AffineTransform.SubAssign | src/include/lcg_predict.hpp:295-301 | `-=` leaves this - rhs, even when rhs is this object |
| Affine.AffineTransform.ComposeAssign | src/include/lcg_predict.hpp:309-317 | `compose_assign` leaves compose(this, rhs), even when rhs is this object |
| Engine.LCGEngine.constructor | src/include/lcg_predict.hpp:366-370 | the engine keeps the given transform and stores the seed reduced mod M |
| Engine.LCGEngine.FromCoefficients | src/include/lcg_predict.hpp:372-375 | the engine from coefficients (modulus defaulting to 0, seed to `default_seed`) holds the normalized transform and the reduced seed |
| Engine.LCGEngine.Next | src/include/lcg_predict.hpp:389-393 | `operator()` replaces the state by its image under the transform and returns it; the transform is unchanged |
| Engine.LCGEngine.ValueAfterNSteps | src/include/lcg_predict.hpp:395-398 | the prediction is the state after n sequential steps, reduced mod M (which matters only for n == 0 with a state at or above M), and the engine is left unchanged |
| Engine.LCGEngine.Discard | src/include/lcg_predict.hpp:400-403 | `discard(n)` sets the state to the state after n steps, reduced mod M (this matters only for n == 0 with a state at or above M, reachable after `set_m`) and leaves the transform unchanged |
| Engine.LCGEngine.SetA | src/include/lcg_predict.hpp:410 | `set_a` forwards to the transform and leaves the state untouched |
| Engine.LCGEngine.SetC | src/include/lcg_predict.hpp:411 | `set_c` forwards to the transform and leaves the state untouched |
| Engine.LCGEngine.SetM | src/include/lcg_predict.hpp:412 | `set_m` changes only the stored modulus: coefficients and state are not renormalized |
| Engine.LCGEngine.SetAffine | src/include/lcg_predict.hpp:413 | `set_affine` replaces the transform as given and leaves the state untouched |
| Engine.LCGEngine.SetState | src/include/lcg_predict.hpp:414 | `set_state` stores the new seed reduced mod M |
| Engine.PredictionMatchesSimulation | src/test/lcg_predict_test.cpp:17-57 | for every transform, seed and count, the predictions `value_after_n_steps(i + 1)` equal the outputs of repeated `operator()` on a copy, and both are the sequential steps from the reduced seed |
| NumberTheory.GcdExt | src/unused/lcg_predict_number_theory.hpp:28-38 | `gcd_ext` recurses on (b, a % b); it terminates because the second argument decreases |
| NumberTheory.GcdExtBezout | src/unused/lcg_predict_number_theory.hpp:28 | a*x + b*y == d |
| NumberTheory.GcdExtDivides | src/unused/lcg_predict_number_theory.hpp:28-38 | d divides a and d divides b |
| NumberTheory.GcdExtGreatest | src/unused/lcg_predict_number_theory.hpp:28-38 | every common divisor of a and b divides d, so d is the gcd |
| NumberTheory.GcdExtBounds | src/unused/lcg_predict_number_theory.hpp:23-25 | the coefficients are bounded by the arguments, so they fit the doubled signed type |
| NumberTheory.CoprimeIffGcdOne | src/unused/lcg_predict_number_theory.hpp:74-76 | a and b are coprime exactly when `gcd_ext(a, b).d == 1` |
| NumberTheory.SentinelGcdExt | src/unused/lcg_predict_number_theory.hpp:59-70 | the sentinel branch finishes the first Euclid step by hand from `gcd_ext(a, 2^W mod a)`, with the same gcd; the residue and the quotient 2^W / a both fit T, so their casts lose nothing |
| NumberTheory.SentinelStepIsGcdExt | src/unused/lcg_predict_number_theory.hpp:59-70 | the hand-made step gives exactly `gcd_ext(a, 2^W)`, although 2^W does not fit T |
| NumberTheory.InverseGcd | src/unused/lcg_predict_number_theory.hpp:53-72 | both branches of the immediately-invoked lambda give `gcd_ext(a, M)` |
| NumberTheory.CoefficientFits | src/unused/lcg_predict_number_theory.hpp:77 | the Bezout coefficient passed to `modder(x)` lies in the doubled signed range |
| NumberTheory.InvMod | src/unused/lcg_predict_number_theory.hpp:40-83 | a returned inverse is below M; for a == 0 one is returned exactly when M == 1; for a == 1 the result is `modder(1)` |
| NumberTheory.InvModIsInverse | src/unused/lcg_predict_number_theory.hpp:77-82 | a returned r satisfies a*r ≡ 1 (mod M), that is `times_mod(a, r) == modder(1)`, the corrected form of the assertion |
| NumberTheory.InvModNoneIffNotCoprime | src/unused/lcg_predict_number_theory.hpp:46-76 | `inv_mod` returns nothing exactly when a and M are not coprime |
| NumberTheory.InverseAssertionFailsModuloOne | src/unused/lcg_predict_number_theory.hpp:81 | with m == 1 and any a >= 2, `inv_mod` returns 0 (a correct inverse mod 1) but the asserted `times_mod(a, result) == 1` is false |
| NumberTheory.InverseAssertionCounterexample | src/unused/lcg_predict_number_theory.hpp:77-81 | the concrete instance W = 8, m = 1, a = 2 of that failure |
| NumberTheory.InverseAssertionHolds | src/unused/lcg_predict_number_theory.hpp:81 | for every M > 1 the asserted check holds of the returned value |
| Presets.KrcRand | src/include/lcg_predict.hpp:420 | the K&R preset's transform is a = 1103515245, c = 12345 modulo 2^31 |
| Presets.MinstdRand | src/include/lcg_predict.hpp:423 | the `minstd_rand` preset's transform is a = 48271, c = 0 modulo 2^31 - 1 |
| Presets.MuslRand | src/include/lcg_predict.hpp:435 | the musl preset's transform is a = 6364136223846793005, c = 1 under the sentinel modulus 2^64 |
| Presets.KrcRandFirstOutputs | src/test/lcg_predict_test.cpp:60-63 | from seed 1 the K&R generator's first two outputs are 1103527590 and 377401575 |
| Presets.MinstdRandFirstOutputs | src/test/lcg_predict_test.cpp:71-74 | from seed 1 the `minstd_rand` generator's first two outputs are 48271 and 182605794 |
| Presets.MuslRandFirstOutputs | src/test/lcg_predict_test.cpp:113-114 | from seed 1 the musl generator's first two outputs are 6364136223846793006 and 13885033948157127959 |

## Left out

- `extract_state` (src/include/lcg_predict.hpp:234-243) reads the state of a standard-library engine through its text stream operator. That is I/O over a foreign type.
- `std_lcg_traits`, `std_lcg_of` and both `from_std` factories (src/include/lcg_predict.hpp:216-228, :261-267, :379-387) introspect `std::linear_congruential_engine`. That is a foreign library.
- The concepts and the `least_doubled_int` selection (src/include/lcg_predict.hpp:27-34, :68-95) are compile-time type checks. Values are mathematical integers, and the doubled signed range appears only in `ReduceSigned`'s precondition and in `CoefficientFits`, which proves the Bezout coefficient lies in it.
- The presets for `minstd_rand0`, MSVC and POSIX `rand48` (src/include/lcg_predict.hpp:425-432) follow the same pattern as the three presets in `Presets`, and are not defined.
- The 10000-step values of `minstd_rand` and `minstd_rand0` (src/test/lcg_predict_test.cpp:79 and :91) are not evaluated: unfolding 10000 steps is beyond what the verifier computes.
- The test harness (views pipelines, `std::ranges::generate`, `static_assert`, the empty `main`) appears only as `PredictionMatchesSimulation` and the preset lemmas.
- Modular.Modder.PlusMod: it requires at most 2^W operands, so that the wide sum cannot wrap. The source has no such bound, but every call in it passes two operands.
- `mod(x)` (src/include/lcg_predict.hpp:171-174) is `Reduce` applied to an operand of T. The literal `1` in `pow_mod` and `inv_mod` goes to the signed overload of `operator()`, which `Reduce(1)` models because the two overloads agree on non-negative values.
- The accessors `a()`, `c()`, `m()`, `affine()` and `state()` are plain field reads (`Engine.LCGEngine.A` and so on) with nothing to state.
- All three `operator==` overloads (src/include/lcg_predict.hpp:213, :344, :416) are defaulted memberwise comparisons. For `Modder` and `Transform` this is Dafny's structural equality; the modder's also compares the width `w`, which is fixed for a given T, so it agrees with the source's comparison of `m`. For the engine class it would be `affine == other.affine && state == other.state`; there is no separate member, because equality of Dafny objects is reference equality.
- The C++ `+`, `-` and `compose` take their left operand by value and apply the in-place operator to that copy. They are the functions `Add`, `Sub` and `Compose`. The in-place `+=`, `-=`, `compose_assign` and setters are the methods of `AffineTransform`.
- Fixed-width wrap-around is modelled only where the source relies on it (`max()`, and `minus_mod` as written). For the other unsigned intermediates the model proves that no wrap happens (`StepFits`, `WideBoundCovers`, the casts in `SentinelGcdExt`) and the signed Bezout coefficient is bounded by `CoefficientFits`; the intermediate signed products inside `gcd_ext` are exact integers without a separate range proof.
- Affine.Sub: it and `AffineTransform.SubAssign` use the corrected `minus_mod`, so they do not reproduce the source's `-` and `-=` where M does not divide 2^K (for example `minstd_rand`'s 2^31 - 1, see `SubAsWrittenDiffersForMinstd`). The as-written operator is `SubAsWritten`, equal to `Sub` whenever M divides 2^K (`SubAsWrittenAgrees`).
- The engine's constructors and setters take a `Transform` value, not an `AffineTransform` object, because the engine stores its own copy.

## Findings

| source | as written | input that shows it | evidently intended | confidence | as-written member | corrected member |
|---|---|---|---|---|---|---|
| src/include/lcg_predict.hpp:182-185 | `minus_mod(x, y)` reduces `x - y` computed in the doubled unsigned type. When x < y that difference wraps to 2^K + x - y, which is congruent to x - y only if M divides 2^K | W = 32, m = 7, x = 0, y = 1: 2^64 - 1 reduced mod 7 is 1 | (x - y) mod M = 6, for example by adding M - (y mod M) before reducing | not executed | Modular.Modder.MinusModAsWritten (exhibited by Modular.MinusModAsWrittenIsWrong) | Modular.Modder.MinusMod |
| src/unused/lcg_predict_number_theory.hpp:81 | `inv_mod` asserts `times_mod(a, result) == 1`, but modulo 1 every product reduces to 0 | m = 1, a = 2 (W = 8): `gcd_ext(2, 1)` = (1, 0, 1), the result is 0, and `times_mod(2, 0)` is 0, so the assertion fails although 0 is the inverse mod 1 | the check `times_mod(a, result) == modder(1)`, which holds for every modulus | not executed | NumberTheory.InverseAssertion (exhibited by NumberTheory.InverseAssertionFailsModuloOne and NumberTheory.InverseAssertionCounterexample) | NumberTheory.CorrectedInverseAssertion (proved of every result by NumberTheory.InvModIsInverse) |

The model's `Affine.Sub` and `AffineTransform.SubAssign` use the corrected
`MinusMod`. `MinusModAgreesOnPowerOfTwoModuli` proves that the two versions
agree whenever M divides 2^K. This covers the power-of-two presets (K&R,
MSVC, `rand48`, musl), but not `minstd_rand`, where m = 2^31 - 1.

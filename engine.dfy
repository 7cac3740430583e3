/** `LCGEngine<T>`: a generator holding an affine transform and the current
    state. Stepping replaces the state by its image under the transform;
    prediction applies the n-th power of the transform in O(log n)
    compositions and must agree with stepping n times. */
module Engine {
  import opened Arith
  import opened Modular
  import opened Affine
  import FastCombine

  /** `default_seed`. */
  const DEFAULT_SEED: nat := 1

  class LCGEngine {
    var affine: Transform
    var state: nat

    predicate Valid()
      reads this
    {
      affine.WellFormed() && state < affine.md.Bound()
    }

    /** `LCGEngine(affine, state)`: the seed is stored reduced mod M. */
    constructor (f: Transform, seed: nat := DEFAULT_SEED)
      requires f.WellFormed() && seed < f.md.Bound()
      ensures Valid() && affine == f
      ensures state == seed % f.md.Modulus()
    {
      affine := f;
      state := f.md.Reduce(seed);
    }

    /** `LCGEngine(a, c, m, state)`. */
    constructor FromCoefficients(w: nat, a: nat, c: nat, m: nat := 0, seed: nat := DEFAULT_SEED)
      requires IsWidth(w) && a < Pow2(w) && c < Pow2(w) && m < Pow2(w) && seed < Pow2(w)
      ensures Valid() && affine == New(w, a, c, m)
      ensures state == seed % affine.md.Modulus()
    {
      var f := New(w, a, c, m);
      affine := f;
      state := f.md.Reduce(seed);
    }

    /** `operator()`: one step; returns the new state. */
    method Next() returns (r: nat)
      requires Valid()
      modifies this
      ensures Valid() && affine == old(affine)
      ensures state == Apply(old(affine), old(state)) && r == state
    {
      state := Apply(affine, state);
      r := state;
    }

    /** `value_after_n_steps`: the state n steps ahead, without stepping. */
    method ValueAfterNSteps(n: nat) returns (r: nat)
      requires Valid() && n < FastCombine.ULL_BOUND
      ensures r < affine.md.Modulus()
      ensures r == Iterate(affine, state, n) % affine.md.Modulus()
      ensures n > 0 || state < affine.md.Modulus() ==> r == Iterate(affine, state, n)
    {
      var p := Powered(affine, n);
      r := Apply(p, state);
      PowApply(affine, state, n);
      if n > 0 || state < affine.md.Modulus() {
        PowApplyExact(affine, state, n);
      }
    }

    /** `discard`: jump n steps ahead. */
    method Discard(n: nat)
      requires Valid() && n < FastCombine.ULL_BOUND
      modifies this
      ensures Valid() && affine == old(affine)
      ensures state == Iterate(affine, old(state), n) % affine.md.Modulus()
    {
      state := ValueAfterNSteps(n);
    }

    function A(): (a: nat)
      reads this
    {
      affine.a
    }

    function C(): (c: nat)
      reads this
    {
      affine.c
    }

    function M(): (m: nat)
      reads this
    {
      affine.md.m
    }

    function State(): (s: nat)
      reads this
    {
      state
    }

    function Affine(): (f: Transform)
      reads this
    {
      affine
    }

    /** `set_a`: forwards to the transform; the state is untouched. */
    method SetA(x: nat)
      requires Valid() && x < affine.md.Bound()
      modifies this
      ensures Valid() && affine == WithA(old(affine), x) && state == old(state)
    {
      affine := WithA(affine, x);
    }

    /** `set_c`: forwards to the transform; the state is untouched. */
    method SetC(x: nat)
      requires Valid() && x < affine.md.Bound()
      modifies this
      ensures Valid() && affine == WithC(old(affine), x) && state == old(state)
    {
      affine := WithC(affine, x);
    }

    /** `set_m`: only the stored modulus changes; neither the coefficients
        nor the state are renormalized. */
    method SetM(m: nat)
      requires Valid() && m < affine.md.Bound()
      modifies this
      ensures Valid() && affine == WithM(old(affine), m) && state == old(state)
    {
      affine := WithM(affine, m);
    }

    /** `set_affine`: the transform is replaced as given (same T). */
    method SetAffine(f: Transform)
      requires Valid() && f.WellFormed() && f.md.w == affine.md.w
      modifies this
      ensures Valid() && affine == f && state == old(state)
    {
      affine := f;
    }

    /** `set_state`: the new seed is stored reduced mod M. */
    method SetState(seed: nat)
      requires Valid() && seed < affine.md.Bound()
      modifies this
      ensures Valid() && affine == old(affine)
      ensures state == seed % affine.md.Modulus()
    {
      state := affine.md.Reduce(seed);
    }
  }

  /** The check of the test suite that prediction equals simulation: the
      predictions `value_after_n_steps(i + 1)` of one engine and the
      outputs of `n` calls to `operator()` on a copy of it agree. */
  method PredictionMatchesSimulation(f: Transform, seed: nat, n: nat)
      returns (prediction: seq<nat>, simulation: seq<nat>)
    requires f.WellFormed() && seed < f.md.Bound() && n < FastCombine.ULL_BOUND
    ensures |prediction| == n && |simulation| == n
    ensures prediction == simulation
    ensures forall i :: 0 <= i < n ==> simulation[i] == Iterate(f, seed % f.md.Modulus(), i + 1)
  {
    var engine := new LCGEngine(f, seed);
    var copy := new LCGEngine(f, seed);
    ghost var s0 := engine.state;
    prediction, simulation := [], [];
    var i := 0;
    while i < n
      invariant 0 <= i <= n
      invariant engine.Valid() && engine.affine == f && engine.state == s0
      invariant copy.Valid() && copy.affine == f && copy.state == Iterate(f, s0, i)
      invariant |prediction| == i && prediction == simulation
      invariant forall k :: 0 <= k < i ==> simulation[k] == Iterate(f, s0, k + 1)
      invariant copy != engine
    {
      var p := engine.ValueAfterNSteps(i + 1);
      var x := copy.Next();
      IterateAdd(f, s0, i, 1);
      prediction, simulation := prediction + [p], simulation + [x];
      i := i + 1;
    }
  }
}

/** The preset generators, used only as concrete instances: their first
    outputs from the default seed 1 agree with the published sequences the
    test suite compares against. T is taken as 32 bits for the
    `uint_fast32_t` presets and 64 bits for the `uint_fast64_t` ones. */
module Presets {
  import opened Arith
  import opened Modular
  import opened Affine

  /** `krc_rand_engine`. */
  function KrcRand(): (f: Transform)
    ensures f.Normalized() && f.md == Modder(32, 2147483648)
    ensures f.a == 1103515245 && f.c == 12345
  {
    StandardWidths();
    Pow2Of32();
    NewOfResidues(32, 1103515245, 12345, 2147483648);
    New(32, 1103515245, 12345, 2147483648)
  }

  /** `minstd_rand_engine`. */
  function MinstdRand(): (f: Transform)
    ensures f.Normalized() && f.md == Modder(32, 2147483647)
    ensures f.a == 48271 && f.c == 0
  {
    StandardWidths();
    Pow2Of32();
    NewOfResidues(32, 48271, 0, 2147483647);
    New(32, 48271, 0, 2147483647)
  }

  /** `musl_rand_engine`: the sentinel modulus 2^64. */
  function MuslRand(): (f: Transform)
    ensures f.Normalized() && f.md == Modder(64, 0)
    ensures f.a == 6364136223846793005 && f.c == 1
  {
    StandardWidths();
    Pow2Of64();
    New(64, 6364136223846793005, 1, 0)
  }

  lemma KrcRandFirstOutputs()
    ensures Iterate(KrcRand(), 1, 1) == 1103527590
    ensures Iterate(KrcRand(), 1, 2) == 377401575
  {
    var f := KrcRand();
    assert f.md.Bound() == 0x1_0000_0000 by { Pow2Of32(); }
    assert Apply(f, 1) == 1103527590;
    assert Apply(f, 1103527590) == 377401575;
    assert Iterate(f, 1, 2) == Iterate(f, 1103527590, 1);
  }

  lemma MinstdRandFirstOutputs()
    ensures Iterate(MinstdRand(), 1, 1) == 48271
    ensures Iterate(MinstdRand(), 1, 2) == 182605794
  {
    var f := MinstdRand();
    assert f.md.Bound() == 0x1_0000_0000 by { Pow2Of32(); }
    assert Apply(f, 1) == 48271;
    assert Apply(f, 48271) == 182605794;
    assert Iterate(f, 1, 2) == Iterate(f, 48271, 1);
  }

  lemma MuslRandFirstOutputs()
    ensures Iterate(MuslRand(), 1, 1) == 6364136223846793006
    ensures Iterate(MuslRand(), 1, 2) == 13885033948157127959
  {
    var f := MuslRand();
    assert f.md.Modulus() == 0x1_0000_0000_0000_0000 by { Pow2Of64(); }
    assert Apply(f, 1) == 6364136223846793006;
    assert Apply(f, 6364136223846793006) == 13885033948157127959;
    assert Iterate(f, 1, 2) == Iterate(f, 6364136223846793006, 1);
  }
}

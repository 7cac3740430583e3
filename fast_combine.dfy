/** Generalized binary exponentiation (`detail::double_and_add`): the n-fold
    self-combination of one element under a binary operation, computed with
    O(log n) applications of the operation.

    The operation is a partial function value; `inv` describes the carrier
    on which it is defined and closed. The algorithm needs associativity on
    that carrier and nothing else: it always computes the left fold
    `unit op elem op ... op elem`, and only the claim that this equals
    `elem op ... op elem` needs `unit` to be an identity. Commutativity is
    never used, because every value the loop combines is a power of the
    same element. */
module FastCombine {

  /** Exclusive bound of `unsigned long long`, the type of the count. */
  const ULL_BOUND: nat := 0x1_0000_0000_0000_0000

  ghost predicate Closed<T(!new)>(op: (T, T) --> T, inv: T -> bool) {
    forall x, y {:trigger op.requires(x, y)} {:trigger op(x, y)} :: inv(x) && inv(y) ==> op.requires(x, y) && inv(op(x, y))
  }

  ghost predicate Associative<T(!new)>(op: (T, T) --> T, inv: T -> bool)
    requires Closed(op, inv)
  {
    forall x, y, z {:trigger op(op(x, y), z)} {:trigger op(x, op(y, z))} :: inv(x) && inv(y) && inv(z) ==> op(op(x, y), z) == op(x, op(y, z))
  }

  ghost predicate IsUnit<T(!new)>(op: (T, T) --> T, inv: T -> bool, unit: T)
    requires Closed(op, inv)
  {
    inv(unit) && forall x {:trigger op(unit, x)} {:trigger op(x, unit)} :: inv(x) ==> op(unit, x) == x && op(x, unit) == x
  }

  /** `unit op elem op ... op elem` with `n` copies of `elem`, bracketed
      from the left; `unit` alone when `n == 0`. */
  ghost function Power<T(!new)>(op: (T, T) --> T, inv: T -> bool, unit: T, elem: T, n: nat): (r: T)
    requires Closed(op, inv) && inv(unit) && inv(elem)
    ensures inv(r)
  {
    if n == 0 then unit else op(Power(op, inv, unit, elem, n - 1), elem)
  }

  /** `elem op ... op elem` with `n >= 1` copies and no unit. */
  ghost function Fold<T(!new)>(op: (T, T) --> T, inv: T -> bool, elem: T, n: nat): (r: T)
    requires Closed(op, inv) && inv(elem) && n >= 1
    ensures inv(r)
  {
    if n == 1 then elem else op(Fold(op, inv, elem, n - 1), elem)
  }

  lemma {:induction false} FoldAdd<T(!new)>(op: (T, T) --> T, inv: T -> bool, elem: T, i: nat, j: nat)
    requires Closed(op, inv) && Associative(op, inv) && inv(elem) && i >= 1 && j >= 1
    ensures op(Fold(op, inv, elem, i), Fold(op, inv, elem, j)) == Fold(op, inv, elem, i + j)
  {
    if j > 1 {
      FoldAdd(op, inv, elem, i, j - 1);
      var a, b := Fold(op, inv, elem, i), Fold(op, inv, elem, j - 1);
      assert op(a, op(b, elem)) == op(op(a, b), elem);
    }
  }

  lemma {:induction false} PowerFold<T(!new)>(op: (T, T) --> T, inv: T -> bool, unit: T, elem: T, i: nat, j: nat)
    requires Closed(op, inv) && Associative(op, inv) && inv(unit) && inv(elem) && j >= 1
    ensures op(Power(op, inv, unit, elem, i), Fold(op, inv, elem, j)) == Power(op, inv, unit, elem, i + j)
  {
    if j > 1 {
      PowerFold(op, inv, unit, elem, i, j - 1);
      var a, b := Power(op, inv, unit, elem, i), Fold(op, inv, elem, j - 1);
      assert op(a, op(b, elem)) == op(op(a, b), elem);
    }
  }

  /** The loop of `double_and_add`: `result` collects the set bits of `n`
      while `varElem` is squared once per bit. */
  method DoubleAndAdd<T(!new)>(elem: T, n: nat, op: (T, T) --> T, unit: T, ghost inv: T -> bool) returns (r: T)
    requires n < ULL_BOUND
    requires Closed(op, inv) && Associative(op, inv) && inv(unit) && inv(elem)
    ensures r == Power(op, inv, unit, elem, n)
  {
    var result := unit;
    var varElem := elem;
    var bits := n;
    ghost var done: nat := 0;
    ghost var p: nat := 1;
    while bits != 0
      invariant inv(result) && inv(varElem) && p >= 1
      invariant result == Power(op, inv, unit, elem, done)
      invariant varElem == Fold(op, inv, elem, p)
      invariant done + p * bits == n
    {
      ShiftCount(done, p, bits);
      if bits % 2 != 0 {
        PowerFold(op, inv, unit, elem, done, p);
        result := op(result, varElem);
        done := done + p;
      }
      FoldAdd(op, inv, elem, p, p);
      varElem := op(varElem, varElem);
      p := 2 * p;
      bits := bits / 2;
    }
    r := result;
  }

  /** Consuming the low bit of `bits` keeps `done + p * bits` fixed. */
  lemma ShiftCount(done: nat, p: nat, bits: nat)
    ensures (if bits % 2 != 0 then done + p else done) + (2 * p) * (bits / 2) == done + p * bits
  {
    assert bits == 2 * (bits / 2) + bits % 2;
    assert p * bits == p * (2 * (bits / 2)) + p * (bits % 2);
    assert p * (2 * (bits / 2)) == (2 * p) * (bits / 2);
  }

  /** With `unit` an identity, the left fold is the doc comment's
      `elem op elem op ... op elem`. */
  lemma {:induction false} PowerIsFold<T(!new)>(op: (T, T) --> T, inv: T -> bool, unit: T, elem: T, n: nat)
    requires Closed(op, inv) && IsUnit(op, inv, unit) && inv(elem) && n >= 1
    ensures Power(op, inv, unit, elem, n) == Fold(op, inv, elem, n)
  {
    if n > 1 {
      PowerIsFold(op, inv, unit, elem, n - 1);
    }
  }

  lemma {:induction false} PowerAdd<T(!new)>(op: (T, T) --> T, inv: T -> bool, unit: T, elem: T, i: nat, j: nat)
    requires Closed(op, inv) && Associative(op, inv) && IsUnit(op, inv, unit) && inv(elem)
    ensures op(Power(op, inv, unit, elem, i), Power(op, inv, unit, elem, j)) == Power(op, inv, unit, elem, i + j)
  {
    if j > 0 {
      PowerAdd(op, inv, unit, elem, i, j - 1);
      var a, b := Power(op, inv, unit, elem, i), Power(op, inv, unit, elem, j - 1);
      assert op(a, op(b, elem)) == op(op(a, b), elem);
    }
  }

  /** (e^p)^q == e^(p*q). */
  lemma {:induction false} PowerMul<T(!new)>(op: (T, T) --> T, inv: T -> bool, unit: T, elem: T, p: nat, q: nat)
    requires Closed(op, inv) && Associative(op, inv) && IsUnit(op, inv, unit) && inv(elem)
    ensures Power(op, inv, unit, Power(op, inv, unit, elem, p), q) == Power(op, inv, unit, elem, p * q)
  {
    if q == 0 {
      assert p * q == 0;
    } else {
      var e := Power(op, inv, unit, elem, p);
      var q': nat := q - 1;
      var k: nat := p * q';
      assert k + p == p * q;
      calc {
        Power(op, inv, unit, e, q);
        op(Power(op, inv, unit, e, q'), e);
        { PowerMul(op, inv, unit, elem, p, q'); }
        op(Power(op, inv, unit, elem, k), e);
        { PowerAdd(op, inv, unit, elem, k, p); }
        Power(op, inv, unit, elem, k + p);
      }
    }
  }

  /** Power does not depend on which closed carrier is used to define it. */
  lemma {:induction false} PowerCarrier<T(!new)>(op: (T, T) --> T, inv1: T -> bool, inv2: T -> bool, unit: T, elem: T, n: nat)
    requires Closed(op, inv1) && inv1(unit) && inv1(elem)
    requires Closed(op, inv2) && inv2(unit) && inv2(elem)
    ensures Power(op, inv1, unit, elem, n) == Power(op, inv2, unit, elem, n)
  {
    if n > 0 {
      PowerCarrier(op, inv1, inv2, unit, elem, n - 1);
    }
  }
}

/** AbstractRing (crypto++/algebra.h, crypto++/algebra.cpp): exponentiation is
    scalar multiplication in the multiplicative monoid, whose InversionIsFast
    is false, so that no element need be invertible. */
module RingPowers {
  import opened Groups
  import opened GeneralCascade
  import SimultaneousMultiplication
  import CascadeMultiplication

  datatype Ring<!T> = Ring(multiply: (T, T) -> T, multiplicativeInverse: T -> T, one: T)

  ghost predicate IsRing<T(!new)>(r: Ring<T>) {
    && (forall x, y, z :: r.multiply(r.multiply(x, y), z) == r.multiply(x, r.multiply(y, z)))
    && (forall x :: r.multiply(x, r.one) == x && r.multiply(r.one, x) == x)
  }

  function MultiplicativeGroup<T>(r: Ring<T>): Group<T> {
    Group(r.multiply, r.multiplicativeInverse, r.one)
  }

  /** x multiplied by itself e times. */
  function Power<T>(r: Ring<T>, x: T, e: nat): T {
    if e == 0 then r.one else r.multiply(Power(r, x, e - 1), x)
  }

  /** The product of the powers, from the left. */
  function PowerProduct<T>(r: Ring<T>, s: seq<Term<T>>): T {
    if s == [] then r.one else r.multiply(Power(r, s[0].base, s[0].exponent), PowerProduct(r, s[1..]))
  }

  lemma MultiplicativeMonoid<T(!new)>(r: Ring<T>)
    requires IsRing(r)
    ensures IsMonoid(MultiplicativeGroup(r))
  {
    var g := MultiplicativeGroup(r);
    forall x, y, z ensures AssociativeAt(g, x, y, z) {
      assert r.multiply(r.multiply(x, y), z) == r.multiply(x, r.multiply(y, z));
    }
    forall x ensures UnitAt(g, x) {
      assert r.multiply(x, r.one) == x && r.multiply(r.one, x) == x;
    }
  }

  lemma {:induction false} PowerIsMultiple<T>(r: Ring<T>, x: T, e: nat)
    ensures Smul(MultiplicativeGroup(r), e, x) == Power(r, x, e)
  {
    if e > 0 {
      PowerIsMultiple(r, x, e - 1);
    }
  }

  method SimultaneousExponentiate<T(!new)>(r: Ring<T>, results: array<T>, base: T, exps: seq<nat>, wordBits: nat)
    requires IsRing(r) && wordBits >= 1 && |exps| <= results.Length
    modifies results
    ensures forall i :: 0 <= i < |exps| ==> results[i] == Power(r, base, exps[i])
    ensures forall i :: |exps| <= i < results.Length ==> results[i] == old(results[i])
  {
    MultiplicativeMonoid(r);
    hide IsRing, IsMonoid, Power, Smul;
    SimultaneousMultiplication.SimultaneousMultiply(MultiplicativeGroup(r), false, results, base, exps, wordBits, 0);
    forall i | 0 <= i < |exps| ensures results[i] == Power(r, base, exps[i]) {
      PowerIsMultiple(r, base, exps[i]);
    }
  }

  method Exponentiate<T(!new)>(r: Ring<T>, base: T, exponent: nat, wordBits: nat) returns (result: T)
    requires IsRing(r) && wordBits >= 1
    ensures result == Power(r, base, exponent)
  {
    var results := new T[1](_ => r.one);
    SimultaneousExponentiate(r, results, base, [exponent], wordBits);
    result := results[0];
  }

  /** Only x and y need commute. */
  method CascadeExponentiate<T(!new)>(r: Ring<T>, x: T, e1: nat, y: T, e2: nat) returns (result: T)
    requires IsRing(r) && r.multiply(x, y) == r.multiply(y, x)
    ensures result == r.multiply(Power(r, x, e1), Power(r, y, e2))
  {
    MultiplicativeMonoid(r);
    hide IsRing, IsMonoid, Power, Smul;
    result := CascadeMultiplication.CascadeScalarMultiply(MultiplicativeGroup(r), x, e1, y, e2, r.one);
    PowerIsMultiple(r, x, e1);
    PowerIsMultiple(r, y, e2);
  }

  lemma {:induction false} SumIsProduct<T>(r: Ring<T>, s: seq<Term<T>>)
    ensures Sum(MultiplicativeGroup(r), s) == PowerProduct(r, s)
  {
    if s != [] {
      SumIsProduct(r, s[1..]);
      PowerIsMultiple(r, s[0].base, s[0].exponent);
    }
  }

  method GeneralCascadeExponentiation<T(!new)>(r: Ring<T>, h: HeapLibrary<Term<T>>, a: array<Term<T>>, wordBits: nat)
    returns (result: T)
    requires IsRing(r) && (forall x, y :: r.multiply(x, y) == r.multiply(y, x)) && wordBits >= 1
    requires IsHeapLibrary(h) && a.Length >= 1
    modifies a
    ensures result == PowerProduct(r, old(a[..]))
  {
    MultiplicativeMonoid(r);
    ghost var g := MultiplicativeGroup(r);
    assert IsCommutative(g) by {
      forall x, y ensures CommuteAt(g, x, y) {
        assert r.multiply(x, y) == r.multiply(y, x);
      }
    }
    hide IsRing, IsMonoid, IsCommutative, IsHeapLibrary, PowerProduct, Sum;
    SumIsProduct(r, a[..]);
    result := GeneralCascadeMultiplication(MultiplicativeGroup(r), false, h, a, wordBits, r.one);
  }
}

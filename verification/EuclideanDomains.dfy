/** AbstractEuclideanDomain::Gcd and QuotientRing::MultiplicativeInverse
    (crypto++/algebra.cpp) over any Euclidean domain: the element type and its
    operations are arbitrary, and the laws are hypotheses. */
module EuclideanDomains {

  datatype Domain<!T> = Domain(
    zero: T, one: T, add: (T, T) -> T, negate: T -> T, multiply: (T, T) -> T,
    quotient: (T, T) -> T, mod: (T, T) -> T, divide: (T, T) -> T, isUnit: T -> bool, norm: T -> nat)
  {
    function Subtract(x: T, y: T): T {
      add(x, negate(y))
    }
  }

  // ----- the laws, at their instances

  ghost predicate RingAt<T>(d: Domain<T>, x: T, y: T, z: T) {
    && d.add(d.add(x, y), z) == d.add(x, d.add(y, z)) && d.add(x, y) == d.add(y, x)
    && d.add(x, d.zero) == x && d.add(x, d.negate(x)) == d.zero
    && d.multiply(d.multiply(x, y), z) == d.multiply(x, d.multiply(y, z)) && d.multiply(x, y) == d.multiply(y, x)
    && d.multiply(x, d.one) == x && d.multiply(x, d.add(y, z)) == d.add(d.multiply(x, y), d.multiply(x, z))
  }

  ghost predicate Times<T>(d: Domain<T>, x: T, k: T, n: T) {
    n == d.multiply(x, k)
  }

  ghost predicate Divides<T(!new)>(d: Domain<T>, x: T, n: T) {
    exists k :: Times(d, x, k, n)
  }

  /** DivisionAlgorithm and Mod, and a norm that no multiple goes below. */
  ghost predicate DivisionAt<T>(d: Domain<T>, a: T, b: T) {
    && (b != d.zero ==>
          && a == d.add(d.multiply(b, d.quotient(a, b)), d.mod(a, b))
          && (d.mod(a, b) == d.zero || d.norm(d.mod(a, b)) < d.norm(b)))
    && (d.multiply(a, b) != d.zero ==> d.norm(a) <= d.norm(d.multiply(a, b)))
  }

  /** IsUnit, and Divide by a unit. */
  ghost predicate UnitAt<T(!new)>(d: Domain<T>, x: T, y: T) {
    (d.isUnit(y) <==> Divides(d, y, d.one)) && (d.isUnit(y) ==> d.multiply(d.divide(x, y), y) == x)
  }

  ghost predicate IsDomain<T(!new)>(d: Domain<T>) {
    && (forall x, y, z :: RingAt(d, x, y, z))
    && (forall a, b :: DivisionAt(d, a, b))
    && (forall x, y :: UnitAt(d, x, y))
  }

  ghost predicate IsGcd<T(!new)>(d: Domain<T>, g: T, a: T, b: T) {
    Divides(d, g, a) && Divides(d, g, b) && forall c :: Divides(d, c, a) && Divides(d, c, b) ==> Divides(d, c, g)
  }

  ghost predicate Coprime<T(!new)>(d: Domain<T>, a: T, b: T) {
    forall c :: Divides(d, c, a) && Divides(d, c, b) ==> d.isUnit(c)
  }

  // ----- a little algebra

  lemma Ring<T(!new)>(d: Domain<T>, x: T, y: T, z: T)
    requires IsDomain(d)
    ensures RingAt(d, x, y, z)
  {
  }

  /** x is the only one that, added to y, gives z. */
  lemma Cancel<T(!new)>(d: Domain<T>, x: T, y: T, z: T)
    requires IsDomain(d) && d.add(x, y) == z
    ensures x == d.Subtract(z, y)
  {
    hide IsDomain;
    Ring(d, x, y, d.negate(y));
    Ring(d, y, y, y);
  }

  lemma TimesZero<T(!new)>(d: Domain<T>, x: T)
    requires IsDomain(d)
    ensures d.multiply(x, d.zero) == d.zero
  {
    hide IsDomain;
    var p := d.multiply(x, d.zero);
    Ring(d, x, d.zero, d.zero);
    Ring(d, d.zero, d.zero, d.zero);
    assert d.add(p, p) == p;
    Cancel(d, p, p, p);
    Ring(d, p, p, p);
  }

  lemma TimesNegative<T(!new)>(d: Domain<T>, x: T, y: T)
    requires IsDomain(d)
    ensures d.multiply(x, d.negate(y)) == d.negate(d.multiply(x, y))
  {
    hide IsDomain;
    var p, n := d.multiply(x, y), d.multiply(x, d.negate(y));
    Ring(d, x, y, d.negate(y));
    Ring(d, y, y, y);
    TimesZero(d, x);
    assert d.add(p, n) == d.zero;
    Ring(d, n, p, p);
    Ring(d, p, n, n);
    Cancel(d, n, p, d.zero);
    Ring(d, d.zero, d.negate(p), p);
    Ring(d, d.negate(p), d.zero, p);
  }

  lemma DividesSelf<T(!new)>(d: Domain<T>, x: T)
    requires IsDomain(d)
    ensures Divides(d, x, x) && Divides(d, x, d.zero)
  {
    Ring(d, x, x, x);
    TimesZero(d, x);
    assert Times(d, x, d.one, x);
    assert Times(d, x, d.zero, d.zero);
  }

  lemma DividesSum<T(!new)>(d: Domain<T>, c: T, a: T, b: T, y: T)
    requires IsDomain(d) && Divides(d, c, a) && Divides(d, c, b)
    ensures Divides(d, c, d.add(d.multiply(b, y), a))
  {
    var i :| Times(d, c, i, a);
    var j :| Times(d, c, j, b);
    Ring(d, c, j, y);
    Ring(d, c, d.multiply(j, y), i);
    assert Times(d, c, d.add(d.multiply(j, y), i), d.add(d.multiply(b, y), a));
  }

  /** A remainder is the dividend less a multiple of the divisor. */
  lemma RemainderIs<T(!new)>(d: Domain<T>, a: T, b: T)
    requires IsDomain(d) && b != d.zero
    ensures var y := d.quotient(a, b);
      d.mod(a, b) == d.Subtract(a, d.multiply(b, y)) == d.add(d.multiply(b, d.negate(y)), a)
  {
    assert DivisionAt(d, a, b);
    hide IsDomain;
    var y, r := d.quotient(a, b), d.mod(a, b);
    var p := d.multiply(b, y);
    Ring(d, p, r, r);
    Ring(d, r, p, r);
    Cancel(d, r, p, a);
    TimesNegative(d, b, y);
    Ring(d, a, d.negate(p), p);
  }

  /** A remainder step keeps the common divisors. */
  lemma SameDivisors<T(!new)>(d: Domain<T>, c: T, g0: T, g1: T)
    requires IsDomain(d) && g1 != d.zero
    ensures Divides(d, c, g0) && Divides(d, c, g1) <==> Divides(d, c, g1) && Divides(d, c, d.mod(g0, g1))
  {
    RemainderIs(d, g0, g1);
    assert DivisionAt(d, g0, g1);
    if Divides(d, c, g0) && Divides(d, c, g1) {
      DividesSum(d, c, g0, g1, d.negate(d.quotient(g0, g1)));
    }
    if Divides(d, c, g1) && Divides(d, c, d.mod(g0, g1)) {
      DividesSum(d, c, d.mod(g0, g1), g1, d.quotient(g0, g1));
    }
  }

  ghost predicate SamePair<T(!new)>(d: Domain<T>, a: T, b: T, g0: T, g1: T) {
    forall c :: Divides(d, c, a) && Divides(d, c, b) <==> Divides(d, c, g0) && Divides(d, c, g1)
  }

  lemma PairStep<T(!new)>(d: Domain<T>, a: T, b: T, g0: T, g1: T)
    requires IsDomain(d) && g1 != d.zero && SamePair(d, a, b, g0, g1)
    ensures SamePair(d, a, b, g1, d.mod(g0, g1))
  {
    hide IsDomain;
    forall c
      ensures Divides(d, c, a) && Divides(d, c, b) <==> Divides(d, c, g1) && Divides(d, c, d.mod(g0, g1))
    {
      SameDivisors(d, c, g0, g1);
    }
  }

  lemma PairEnd<T(!new)>(d: Domain<T>, a: T, b: T, g0: T, g1: T)
    requires IsDomain(d) && SamePair(d, a, b, g0, g1) && Divides(d, g0, g1)
    ensures IsGcd(d, g0, a, b)
  {
    DividesSelf(d, g0);
  }

  lemma Shrinks<T(!new)>(d: Domain<T>, g0: T, g1: T)
    requires IsDomain(d) && g1 != d.zero
    ensures d.mod(g0, g1) == d.zero || d.norm(d.mod(g0, g1)) < d.norm(g1)
  {
    assert DivisionAt(d, g0, g1);
  }

  // ----- Gcd

  /** The loop's measure: zero comes last. */
  function Measure<T(==)>(d: Domain<T>, g: T): nat {
    if g == d.zero then 0 else d.norm(g) + 1
  }

  method Gcd<T(==, !new)>(d: Domain<T>, a: T, b: T) returns (result: T)
    requires IsDomain(d)
    ensures IsGcd(d, result, a, b)
  {
    hide IsDomain, SamePair, IsGcd, Divides;
    var g := new T[3](_ => d.zero);
    g[0], g[1] := b, a;
    var i0, i1, i2 := 0, 1, 2;
    PairStart(d, a, b);
    while g[i1] != d.zero
      invariant {i0, i1, i2} == {0, 1, 2}
      invariant SamePair(d, a, b, g[i0], g[i1])
      decreases Measure(d, g[i1])
    {
      PairStep(d, a, b, g[i0], g[i1]);
      Shrinks(d, g[i0], g[i1]);
      g[i2] := d.mod(g[i0], g[i1]);
      var t := i0;
      i0, i1, i2 := i1, i2, t;
    }
    DividesSelf(d, g[i0]);
    PairEnd(d, a, b, g[i0], g[i1]);
    result := g[i0];
  }

  lemma PairStart<T(!new)>(d: Domain<T>, a: T, b: T)
    ensures SamePair(d, a, b, b, a) && SamePair(d, a, b, a, b)
  {
  }

  // ----- the inverse in the quotient ring

  /** g is v * a + u * m. */
  ghost predicate Combines<T>(d: Domain<T>, g: T, v: T, a: T, u: T, m: T) {
    g == d.add(d.multiply(v, a), d.multiply(u, m))
  }

  /** (x0 + y0) - (x1 + y1) = (x0 - x1) + (y0 - y1) */
  lemma SubtractSums<T(!new)>(d: Domain<T>, x0: T, y0: T, x1: T, y1: T)
    requires IsDomain(d)
    ensures d.Subtract(d.add(x0, y0), d.add(x1, y1)) == d.add(d.Subtract(x0, x1), d.Subtract(y0, y1))
  {
    hide IsDomain;
    var x, y := d.Subtract(x0, x1), d.Subtract(y0, y1);
    var p, q := d.add(x1, y1), d.add(x, y);
    AddBack(d, x0, x1);
    AddBack(d, y0, y1);
    Ring(d, q, x1, y1);
    Ring(d, x, y, x1);
    Ring(d, y, x1, x1);
    Ring(d, x, x1, y);
    Ring(d, d.add(x, x1), y, y1);
    assert d.add(q, p) == d.add(x0, y0);
    Cancel(d, q, p, d.add(x0, y0));
  }

  lemma AddBack<T(!new)>(d: Domain<T>, x: T, y: T)
    requires IsDomain(d)
    ensures d.add(d.Subtract(x, y), y) == x
  {
    hide IsDomain;
    Ring(d, x, d.negate(y), y);
    Ring(d, d.negate(y), y, y);
    Ring(d, y, y, y);
    Ring(d, x, y, y);
  }

  /** (v0 - v1 * y) * a = v0 * a - (v1 * a) * y */
  lemma ScaledDifference<T(!new)>(d: Domain<T>, v0: T, v1: T, y: T, a: T)
    requires IsDomain(d)
    ensures d.multiply(d.Subtract(v0, d.multiply(v1, y)), a) ==
      d.Subtract(d.multiply(v0, a), d.multiply(d.multiply(v1, a), y))
  {
    hide IsDomain;
    var p := d.multiply(v1, y);
    Ring(d, a, v0, d.negate(p));
    Ring(d, d.Subtract(v0, p), a, a);
    Ring(d, v0, a, a);
    TimesNegative(d, a, p);
    Ring(d, a, v1, y);
    Ring(d, a, p, p);
    Ring(d, v1, a, y);
    assert d.multiply(a, p) == d.multiply(d.multiply(a, v1), y);
    assert d.multiply(a, v1) == d.multiply(v1, a);
  }

  lemma CombineStep<T(!new)>(d: Domain<T>, g0: T, v0: T, u0: T, g1: T, v1: T, u1: T, a: T, m: T, y: T)
    requires IsDomain(d) && Combines(d, g0, v0, a, u0, m) && Combines(d, g1, v1, a, u1, m)
    ensures Combines(d, d.Subtract(g0, d.multiply(g1, y)),
              d.Subtract(v0, d.multiply(v1, y)), a, d.Subtract(u0, d.multiply(u1, y)), m)
  {
    hide IsDomain;
    var p, q := d.multiply(v1, a), d.multiply(u1, m);
    Ring(d, y, p, q);
    Ring(d, y, d.add(p, q), q);
    Ring(d, y, q, q);
    assert d.multiply(g1, y) == d.add(d.multiply(p, y), d.multiply(q, y)) by {
      Ring(d, g1, y, y);
      Ring(d, p, y, y);
      Ring(d, q, y, y);
    }
    SubtractSums(d, d.multiply(v0, a), d.multiply(u0, m), d.multiply(p, y), d.multiply(q, y));
    ScaledDifference(d, v0, v1, y, a);
    ScaledDifference(d, u0, u1, y, m);
  }

  lemma CombineStart<T(!new)>(d: Domain<T>, a: T, m: T)
    requires IsDomain(d)
    ensures Combines(d, m, d.zero, a, d.one, m) && Combines(d, a, d.one, a, d.zero, m)
  {
    hide IsDomain;
    TimesZero(d, a);
    TimesZero(d, m);
    Ring(d, a, d.zero, d.zero);
    Ring(d, m, d.zero, d.zero);
    Ring(d, d.zero, a, a);
    Ring(d, d.zero, m, m);
    Ring(d, d.one, a, a);
    Ring(d, d.one, m, m);
  }

  /** Zero modulo m means divisible by m. */
  lemma ZeroModulo<T(!new)>(d: Domain<T>, x: T, m: T)
    requires IsDomain(d) && m != d.zero
    ensures d.mod(d.Subtract(x, d.zero), m) == d.zero <==> Divides(d, m, x)
  {
    assert d.Subtract(x, d.zero) == x by {
      Ring(d, x, d.zero, d.zero);
      Cancel(d, x, d.zero, x);
    }
    assert DivisionAt(d, x, m);
    var r := d.mod(x, m);
    if r == d.zero {
      Ring(d, d.multiply(m, d.quotient(x, m)), r, r);
      assert Times(d, m, d.quotient(x, m), x);
    }
    if Divides(d, m, x) {
      RemainderIs(d, x, m);
      DividesSelf(d, m);
      DividesSum(d, m, x, m, d.negate(d.quotient(x, m)));
      SmallMultiple(d, m, r);
    }
  }

  /** A non-zero multiple is not smaller. */
  lemma SmallMultiple<T(!new)>(d: Domain<T>, m: T, x: T)
    requires IsDomain(d) && Divides(d, m, x)
    ensures x == d.zero || d.norm(m) <= d.norm(x)
  {
    var k :| Times(d, m, k, x);
    assert DivisionAt(d, m, k);
  }

  /** What MultiplicativeInverse is for. */
  ghost predicate Correct<T(!new)>(d: Domain<T>, r: T, a: T, m: T) {
    if Coprime(d, a, m) then Divides(d, m, d.Subtract(d.multiply(r, a), d.one)) else r == d.zero
  }

  lemma UnitInverts<T(!new)>(d: Domain<T>, g: T, v: T, u: T, a: T, m: T, r: T)
    requires IsDomain(d) && Combines(d, g, v, a, u, m) && d.isUnit(g) && r == d.divide(v, g)
    ensures Divides(d, m, d.Subtract(d.multiply(r, a), d.one))
  {
    assert UnitAt(d, v, g);
    var h :| Times(d, g, h, d.one);
    hide IsDomain;
    var ra, uh := d.multiply(r, a), d.multiply(u, h);
    // multiplied by h, g = v * a + u * m becomes 1 = r * a + (u * h) * m
    Ring(d, h, d.multiply(v, a), d.multiply(u, m));
    Ring(d, h, g, g);
    assert d.one == d.add(d.multiply(h, d.multiply(v, a)), d.multiply(h, d.multiply(u, m)));
    assert d.multiply(h, d.multiply(v, a)) == ra by {
      Ring(d, h, v, a);
      Ring(d, h, r, g);
      Ring(d, v, h, h);
      Ring(d, r, g, h);
      Ring(d, r, g, g);
      assert d.multiply(v, h) == d.multiply(r, d.multiply(g, h));
    }
    assert d.multiply(h, d.multiply(u, m)) == d.multiply(m, uh) by {
      Ring(d, h, u, m);
      Ring(d, u, h, h);
      Ring(d, uh, m, m);
    }
    var w := d.multiply(m, uh);
    Ring(d, ra, w, w);
    Cancel(d, ra, w, d.one);
    // so r * a - 1 = -w
    assert d.Subtract(ra, d.one) == d.negate(w) by {
      Ring(d, d.one, d.negate(w), d.negate(d.one));
      Ring(d, d.negate(w), d.one, d.one);
      Ring(d, d.negate(w), d.one, d.negate(d.one));
      Ring(d, d.one, d.one, d.one);
      Ring(d, d.negate(w), d.zero, d.zero);
    }
    TimesNegative(d, m, uh);
    assert Times(d, m, d.negate(uh), d.negate(w));
  }

  lemma UnitGcd<T(!new)>(d: Domain<T>, g: T, a: T, m: T)
    requires IsDomain(d) && IsGcd(d, g, a, m)
    ensures Coprime(d, a, m) <==> d.isUnit(g)
  {
    if d.isUnit(g) {
      UnitDivisors(d, g, a, m);
    }
  }

  /** When every common divisor divides a unit, there are only units. */
  lemma UnitDivisors<T(!new)>(d: Domain<T>, g: T, a: T, m: T)
    requires IsDomain(d) && d.isUnit(g) && forall c :: Divides(d, c, a) && Divides(d, c, m) ==> Divides(d, c, g)
    ensures Coprime(d, a, m)
  {
    forall c | Divides(d, c, a) && Divides(d, c, m) ensures d.isUnit(c) {
      DividesUnit(d, c, g);
    }
  }

  lemma DividesUnit<T(!new)>(d: Domain<T>, c: T, g: T)
    requires IsDomain(d) && Divides(d, c, g) && d.isUnit(g)
    ensures d.isUnit(c)
  {
    var k :| Times(d, c, k, g);
    assert UnitAt(d, g, g) && UnitAt(d, c, c);
    var h :| Times(d, g, h, d.one);
    Ring(d, c, k, h);
    assert Times(d, c, d.multiply(k, h), d.one);
  }

  lemma CombinedDivisor<T(!new)>(d: Domain<T>, c: T, g: T, v: T, a: T, u: T, m: T)
    requires IsDomain(d) && Combines(d, g, v, a, u, m) && Divides(d, c, a) && Divides(d, c, m)
    ensures Divides(d, c, g)
  {
    DividesSelf(d, c);
    Ring(d, v, a, a);
    Ring(d, u, m, m);
    DividesSum(d, c, d.zero, m, u);
    Ring(d, d.multiply(m, u), d.zero, d.zero);
    DividesSum(d, c, d.multiply(m, u), a, v);
  }

  // ----- where the loop stops

  /** The remainder kept when the first one divisible by the modulus comes up. */
  ghost function Stop<T(!new)>(d: Domain<T>, m: T, g0: T, g1: T): T
    requires IsDomain(d) && m != d.zero
    decreases Measure(d, g1)
  {
    DividesSelf(d, m);
    if Divides(d, m, g1) then g0 else Shrinks(d, g0, g1); Stop(d, m, g1, d.mod(g0, g1))
  }

  lemma StopHere<T(!new)>(d: Domain<T>, m: T, g0: T, g1: T)
    requires IsDomain(d) && m != d.zero && Divides(d, m, g1)
    ensures Stop(d, m, g0, g1) == g0
  {
  }

  lemma StopLater<T(!new)>(d: Domain<T>, m: T, g0: T, g1: T)
    requires IsDomain(d) && m != d.zero && !Divides(d, m, g1)
    ensures g1 != d.zero && Stop(d, m, g0, g1) == Stop(d, m, g1, d.mod(g0, g1))
  {
    DividesSelf(d, m);
  }

  /** From a remainder smaller than the modulus on, the loop runs to the end. */
  lemma {:induction false} StopIsGcd<T(!new)>(d: Domain<T>, m: T, g0: T, g1: T)
    requires IsDomain(d) && m != d.zero && (g1 == d.zero || d.norm(g1) < d.norm(m))
    ensures IsGcd(d, Stop(d, m, g0, g1), g0, g1)
    decreases Measure(d, g1)
  {
    hide IsDomain, Divides, IsGcd, SamePair, Stop;
    PairStart(d, g1, g0);
    if g1 == d.zero {
      DividesSelf(d, m);
      DividesSelf(d, g0);
      StopHere(d, m, g0, g1);
      PairEnd(d, g0, g1, g0, g1);
    } else {
      if Divides(d, m, g1) {
        SmallMultiple(d, m, g1);
        assert false;
      }
      StopLater(d, m, g0, g1);
      Shrinks(d, g0, g1);
      StopIsGcd(d, m, g1, d.mod(g0, g1));
      GcdBack(d, Stop(d, m, g0, g1), g0, g1);
    }
  }

  /** A greatest common divisor of divisor and remainder is one of dividend and
      divisor. */
  lemma GcdBack<T(!new)>(d: Domain<T>, g: T, g0: T, g1: T)
    requires IsDomain(d) && g1 != d.zero && IsGcd(d, g, g1, d.mod(g0, g1))
    ensures IsGcd(d, g, g0, g1)
  {
    hide IsDomain;
    SameDivisors(d, g, g0, g1);
    forall c | Divides(d, c, g0) && Divides(d, c, g1) ensures Divides(d, c, g) {
      SameDivisors(d, c, g0, g1);
    }
  }

  lemma GcdSwap<T(!new)>(d: Domain<T>, g: T, a: T, b: T)
    requires IsGcd(d, g, a, b)
    ensures IsGcd(d, g, b, a)
  {
  }

  /** An argument no larger than the modulus, or zero in the quotient ring. */
  lemma ReducedStop<T(!new)>(d: Domain<T>, a: T, m: T)
    requires IsDomain(d) && m != d.zero && (d.norm(a) <= d.norm(m) || Divides(d, m, a))
    ensures IsGcd(d, Stop(d, m, m, a), a, m)
  {
    hide IsDomain, Divides, IsGcd, Stop;
    if Divides(d, m, a) {
      StopHere(d, m, m, a);
      PairStart(d, a, m);
      PairEnd(d, a, m, m, a);
    } else {
      StopLater(d, m, m, a);
      Shrinks(d, m, a);
      StopIsGcd(d, m, a, d.mod(m, a));
      GcdBack(d, Stop(d, m, m, a), m, a);
      GcdSwap(d, Stop(d, m, m, a), m, a);
    }
  }

  lemma InverseExact<T(!new)>(d: Domain<T>, g: T, v: T, u: T, a: T, m: T, r: T)
    requires IsDomain(d) && m != d.zero && Combines(d, g, v, a, u, m) && g == Stop(d, m, m, a)
    requires r == if d.isUnit(g) then d.divide(v, g) else d.zero
    ensures Correct(d, r, a, m) <==> d.isUnit(g) || !Coprime(d, a, m)
  {
    hide IsDomain, Combines, Divides, Stop;
    if d.isUnit(g) {
      UnitInverts(d, g, v, u, a, m, r);
      forall c | Divides(d, c, a) && Divides(d, c, m) ensures Divides(d, c, g) {
        CombinedDivisor(d, c, g, v, a, u, m);
      }
      UnitDivisors(d, g, a, m);
    } else if Divides(d, m, d.Subtract(d.multiply(d.zero, a), d.one)) {
      NegativeOne(d, a, m);
      DividesAll(d, m, a);
      StopHere(d, m, m, a);
      assert false;
    }
  }

  /** A divisor of 0 * a - 1 is a unit. */
  lemma NegativeOne<T(!new)>(d: Domain<T>, a: T, m: T)
    requires IsDomain(d) && Divides(d, m, d.Subtract(d.multiply(d.zero, a), d.one))
    ensures d.isUnit(m)
  {
    assert UnitAt(d, m, m);
    var k :| Times(d, m, k, d.Subtract(d.multiply(d.zero, a), d.one));
    hide IsDomain;
    var n := d.negate(d.one);
    TimesZero(d, a);
    Ring(d, d.zero, a, a);
    Ring(d, a, d.zero, a);
    Ring(d, d.zero, n, n);
    Ring(d, n, d.zero, d.zero);
    assert d.multiply(m, k) == n;
    TimesNegative(d, m, k);
    Ring(d, n, d.one, d.one);
    Ring(d, d.one, n, n);
    Cancel(d, d.one, n, d.zero);
    Ring(d, d.zero, d.negate(n), n);
    Ring(d, d.negate(n), d.zero, n);
    assert Times(d, m, d.negate(k), d.one);
  }

  lemma DividesAll<T(!new)>(d: Domain<T>, m: T, x: T)
    requires IsDomain(d) && d.isUnit(m)
    ensures Divides(d, m, x)
  {
    assert UnitAt(d, x, m);
    Ring(d, d.divide(x, m), m, m);
    assert Times(d, m, d.divide(x, m), x);
  }

  /** QuotientRing::MultiplicativeInverse.  The result is the inverse, or zero
      where there is none, exactly when the loop stops at a unit or there is no
      inverse; arguments no larger than the modulus, or zero in the quotient
      ring, are always among them. */
  method MultiplicativeInverse<T(==, !new)>(d: Domain<T>, a: T, m: T) returns (r: T)
    requires IsDomain(d) && m != d.zero
    ensures Correct(d, r, a, m) <==> d.isUnit(Stop(d, m, m, a)) || !Coprime(d, a, m)
    ensures d.norm(a) <= d.norm(m) || Divides(d, m, a) ==> Correct(d, r, a, m)
  {
    hide IsDomain, Divides, IsGcd, Combines, Coprime, Stop, Correct;
    var g, v := new T[3](_ => d.zero), new T[3](_ => d.zero);
    g[0], g[1], v[1] := m, a, d.one;
    var i0, i1, i2 := 0, 1, 2;
    ghost var u0, u1 := d.one, d.zero;
    CombineStart(d, a, m);
    while d.mod(d.Subtract(g[i1], d.zero), m) != d.zero
      invariant {i0, i1, i2} == {0, 1, 2} && g != v
      invariant Combines(d, g[i0], v[i0], a, u0, m) && Combines(d, g[i1], v[i1], a, u1, m)
      invariant Stop(d, m, g[i0], g[i1]) == Stop(d, m, m, a)
      decreases Measure(d, g[i1])
    {
      ZeroModulo(d, g[i1], m);
      StopLater(d, m, g[i0], g[i1]);
      Shrinks(d, g[i0], g[i1]);
      RemainderIs(d, g[i0], g[i1]);
      var y := d.quotient(g[i0], g[i1]);
      CombineStep(d, g[i0], v[i0], u0, g[i1], v[i1], u1, a, m, y);
      g[i2] := d.mod(g[i0], g[i1]);
      v[i2] := d.Subtract(v[i0], d.multiply(v[i1], y));
      u0, u1 := u1, d.Subtract(u0, d.multiply(u1, y));
      var t := i0;
      i0, i1, i2 := i1, i2, t;
    }
    ZeroModulo(d, g[i1], m);
    StopHere(d, m, g[i0], g[i1]);
    r := if d.isUnit(g[i0]) then d.divide(v[i0], g[i0]) else d.zero;
    InverseExact(d, g[i0], v[i0], u0, a, m, r);
    if d.norm(a) <= d.norm(m) || Divides(d, m, a) {
      ReducedStop(d, a, m);
      UnitGcd(d, g[i0], a, m);
    }
  }
}

/** QuotientRing::MultiplicativeInverse (crypto++/algebra.cpp) over the integers,
    where it can be said in closed form which arguments it fails.
    Integer::Divide and % leave a remainder from 0 up to the size of the divisor
    (crypto++/integer.cpp), as Dafny's / and % do. */
module Euclid {
  import opened Powers
  import Domains = EuclideanDomains

  // ----- the integers are a Euclidean domain

  function IntegerDomain(): Domains.Domain<int> {
    Domains.Domain(0, 1, (x, y) => x + y, x => -x, (x, y) => x * y,
      (x, y) => if y == 0 then 0 else x / y, (x, y) => if y == 0 then 0 else x % y,
      (x, y) => if y == 0 then 0 else x / y, x => x == 1 || x == -1, x => Abs(x))
  }

  lemma IntegersAreDomain()
    ensures Domains.IsDomain(IntegerDomain())
  {
    var d := IntegerDomain();
    forall x, y, z ensures Domains.RingAt(d, x, y, z) {
      IntegerRing(x, y, z);
    }
    forall a, b ensures Domains.DivisionAt(d, a, b) {
      ProductNotSmaller(a, b);
    }
    forall x, y ensures Domains.UnitAt(d, x, y) {
      if d.isUnit(y) {
        assert Domains.Times(d, y, y, 1);
      } else if Domains.Divides(d, y, 1) {
        var k :| Domains.Times(d, y, k, 1);
        UnitFactor(y, k);
      }
    }
  }

  lemma IntegerRing(x: int, y: int, z: int)
    ensures (x * y) * z == x * (y * z) && x * (y + z) == x * y + x * z
  {
  }

  lemma ProductNotSmaller(a: int, b: int)
    ensures a * b != 0 ==> Abs(a) <= Abs(a * b)
  {
    if b > 0 {
      assert a > 0 ==> a * b >= a;
      assert a < 0 ==> a * b <= a;
    } else if b < 0 {
      assert a > 0 ==> a * b <= -a;
      assert a < 0 ==> a * b >= -a;
    }
  }

  lemma UnitFactor(d: int, k: int)
    requires d * k == 1
    ensures d == 1 || d == -1
  {
    assert d >= 2 && k >= 1 ==> d * k >= d;
    assert d >= 2 && k <= -1 ==> d * k <= -d;
    assert d <= -2 && k >= 1 ==> d * k <= d;
    assert d <= -2 && k <= -1 ==> d * k >= -d;
  }

  // ----- remainders

  lemma ModIs(n: int, d: int, q: int, r: int)
    requires d != 0 && 0 <= r < Abs(d) && n == q * d + r
    ensures n % d == r
  {
    var k := q - n / d;
    assert n == (n / d) * d + n % d;
    assert k * d == q * d - (n / d) * d;
    if k != 0 {
      ProductNotSmaller(d, k);
      assert d * k == k * d;
    }
  }

  /** Divisibility is a remainder of zero. */
  lemma DividesIsMod(m: int, x: int)
    requires m != 0
    ensures Domains.Divides(IntegerDomain(), m, x) <==> x % m == 0
  {
    var d := IntegerDomain();
    if Domains.Divides(d, m, x) {
      var k :| Domains.Times(d, m, k, x);
      assert m * k == k * m;
      ModIs(x, m, k, 0);
    }
    if x % m == 0 {
      assert Domains.Times(d, m, x / m, x);
    }
  }

  /** Taking away multiples of the modulus does not make a multiple. */
  lemma StillNoMultiple(a: int, m: int, s: int, k: int)
    requires m != 0 && a % m != 0 && (s == 1 || s == -1)
    ensures (s * a + k * m) % m != 0
  {
    if (s * a + k * m) % m == 0 {
      var q := (s * a + k * m) / m;
      assert s * a == (q - k) * m;
      assert s == -1 ==> a == (-(q - k)) * m;
      ModIs(a, m, if s == 1 then q - k else -(q - k), 0);
      assert false;
    }
  }

  // ----- where the loop stops

  ghost function StopAt(m: int, g0: int, g1: int): int
    requires m != 0
  {
    IntegersAreDomain();
    Domains.Stop(IntegerDomain(), m, g0, g1)
  }

  ghost predicate IsGcd(g: int, a: int, b: int) {
    Domains.IsGcd(IntegerDomain(), g, a, b)
  }

  ghost predicate Coprime(a: int, b: int) {
    Domains.Coprime(IntegerDomain(), a, b)
  }

  lemma Stops(m: int, g0: int, g1: int)
    requires m != 0 && g1 % m == 0
    ensures StopAt(m, g0, g1) == g0
  {
    IntegersAreDomain();
    DividesIsMod(m, g1);
    Domains.StopHere(IntegerDomain(), m, g0, g1);
  }

  /** One turn of the loop, from the dividend's division by the divisor. */
  lemma Turns(m: int, g0: int, g1: int, q: int, r: int)
    requires m != 0 && g1 % m != 0 && g0 == q * g1 + r && 0 <= r < Abs(g1)
    ensures StopAt(m, g0, g1) == StopAt(m, g1, r)
    ensures IsGcd(StopAt(m, g1, r), g1, r) ==> IsGcd(StopAt(m, g0, g1), g0, g1)
  {
    IntegersAreDomain();
    hide Domains.IsDomain, Domains.Stop, Domains.IsGcd, Domains.Divides;
    DividesIsMod(m, g1);
    ModIs(g0, g1, q, r);
    Domains.StopLater(IntegerDomain(), m, g0, g1);
    if IsGcd(StopAt(m, g1, r), g1, r) {
      Domains.GcdBack(IntegerDomain(), StopAt(m, g1, r), g0, g1);
    }
  }

  lemma RunsOut(m: int, g0: int, g1: int)
    requires m != 0 && Abs(g1) < Abs(m)
    ensures IsGcd(StopAt(m, g0, g1), g0, g1)
  {
    IntegersAreDomain();
    Domains.StopIsGcd(IntegerDomain(), m, g0, g1);
  }

  /** The largest argument that the loop can handle. */
  function Limit(a: int, m: int): nat {
    if m > 0 then m else if a > 0 then 2 * Abs(m) else 3 * Abs(m)
  }

  /** Beyond it, the loop meets the modulus again and stops too early. */
  lemma TooLarge(a: int, m: int)
    requires m != 0 && a % m != 0 && Abs(a) > Limit(a, m)
    ensures Abs(StopAt(m, m, a)) >= 2
  {
    hide StopAt, IsGcd;
    var b, p := Abs(a), Abs(m);
    if m > 0 {
      Turns(m, m, a, 0, m);
      ModIs(m, m, 1, 0);
      Stops(m, a, m);
    } else {
      ModIs(p, m, -1, 0);
      if a > 0 {
        Turns(m, m, a, -1, b - p);
        StillNoMultiple(a, m, 1, 1);
        Turns(m, a, b - p, 1, p);
        Stops(m, b - p, p);
      } else {
        Turns(m, m, a, 1, b - p);
        StillNoMultiple(a, m, -1, 1);
        Turns(m, a, b - p, -2, b - 2 * p);
        StillNoMultiple(a, m, -1, 2);
        Turns(m, b - p, b - 2 * p, 1, p);
        Stops(m, b - 2 * p, p);
      }
    }
  }

  /** Up to it, the loop ends with a greatest common divisor. */
  lemma SmallEnough(a: int, m: int)
    requires m != 0 && (a % m == 0 || Abs(a) <= Limit(a, m))
    ensures IsGcd(StopAt(m, m, a), a, m)
  {
    IntegersAreDomain();
    hide Domains.IsDomain, Domains.Stop, Domains.IsGcd, Domains.Divides;
    var d, b, p := IntegerDomain(), Abs(a), Abs(m);
    DividesIsMod(m, a);
    if a % m == 0 || b <= p {
      Domains.ReducedStop(d, a, m);
    } else {
      NotTwoOrThreeTimes(a, m);
      if b < 2 * p {
        Turns(m, m, a, if a > 0 then -1 else 1, b - p);
        RunsOut(m, a, b - p);
      } else {
        Turns(m, m, a, 1, b - p);
        StillNoMultiple(a, m, -1, 1);
        Turns(m, a, b - p, -2, b - 2 * p);
        RunsOut(m, b - p, b - 2 * p);
      }
      Domains.GcdSwap(d, StopAt(m, m, a), m, a);
    }
  }

  lemma NotTwoOrThreeTimes(a: int, m: int)
    requires m != 0 && a % m != 0
    ensures Abs(a) != 2 * Abs(m) && Abs(a) != 3 * Abs(m)
  {
    if Abs(a) == 2 * Abs(m) {
      ModIs(a, m, if (a > 0) == (m > 0) then 2 else -2, 0);
      assert false;
    }
    if Abs(a) == 3 * Abs(m) {
      ModIs(a, m, if (a > 0) == (m > 0) then 3 else -3, 0);
      assert false;
    }
  }

  // ----- the inverse

  /** What MultiplicativeInverse is for. */
  ghost predicate Correct(r: int, a: int, m: int)
    requires m != 0
  {
    if Coprime(a, m) then (r * a - 1) % m == 0 else r == 0
  }

  /** Because the loop compares in the quotient ring, large arguments stop it too
      early: the result is the inverse, or zero when there is none, exactly when
      the argument is within the limit, or is zero in the ring, or has no
      inverse.  The limit is the modulus, or for a negative modulus two or three
      times its size. */
  method MultiplicativeInverse(a: int, m: int) returns (r: int)
    requires m != 0
    ensures Correct(r, a, m) <==> Abs(a) <= Limit(a, m) || a % m == 0 || !Coprime(a, m)
  {
    IntegersAreDomain();
    hide Domains.IsDomain, Domains.Stop, Domains.Coprime, Domains.Divides, Domains.IsGcd;
    ghost var d := IntegerDomain();
    r := Domains.MultiplicativeInverse(IntegerDomain(), a, m);
    DividesIsMod(m, r * a - 1);
    if a % m == 0 || Abs(a) <= Limit(a, m) {
      SmallEnough(a, m);
      Domains.UnitGcd(d, StopAt(m, m, a), a, m);
    } else {
      TooLarge(a, m);
    }
  }

  /** An unreduced argument that goes wrong: 3 inverts 12 modulo 7, as 36 is
      1 + 5 * 7, but what is returned does not. */
  method UnreducedArgument() returns (r: int)
    ensures Coprime(12, 7) && (3 * 12 - 1) % 7 == 0 && (r * 12 - 1) % 7 != 0
  {
    TwelveAndSeven();
    hide Coprime;
    r := MultiplicativeInverse(12, 7);
  }

  lemma TwelveAndSeven()
    ensures Coprime(12, 7)
  {
    var d := IntegerDomain();
    forall c | Domains.Divides(d, c, 12) && Domains.Divides(d, c, 7) ensures d.isUnit(c) {
      var i :| Domains.Times(d, c, i, 12);
      var j :| Domains.Times(d, c, j, 7);
      assert c * (3 * i - 5 * j) == 1;
      UnitFactor(c, 3 * i - 5 * j);
    }
  }
}

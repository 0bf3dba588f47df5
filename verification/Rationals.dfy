/** Exact rational numbers as the mpq layer keeps them: a numerator and a
    positive denominator in lowest terms.  The arithmetic is the contract of
    the mpq_* library functions. */
module Rationals {
  import opened Powers

  datatype Rat = Rat(n: int, d: int)

  /** u and v show that nothing but a unit divides both a and b. */
  ghost predicate Bezout(a: int, b: int, u: int, v: int) {
    u * a + v * b == 1
  }

  ghost predicate LowestTerms(a: int, b: int) {
    exists u, v :: Bezout(a, b, u, v)
  }

  ghost predicate Canonical(q: Rat) {
    q.d > 0 && LowestTerms(q.n, q.d)
  }

  function Gcd(a: nat, b: nat): (g: nat)
    ensures g > 0 || (a == 0 && b == 0)
    decreases b
  {
    if b == 0 then a else Gcd(b, a % b)
  }

  /** The greatest common divisor divides both and is a combination of them. */
  lemma {:induction false} GcdFactors(a: nat, b: nat) returns (a': nat, b': nat, u: int, v: int)
    ensures var g := Gcd(a, b); a == a' * g && b == b' * g && u * a + v * b == g
    decreases b
  {
    if b == 0 {
      a', b', u, v := 1, 0, 1, 0;
    } else {
      var q, r := a / b, a % b;
      assert a == q * b + r;
      QuotientNonNegative(a, b);
      var b1, r1, u1, v1 := GcdFactors(b, r);
      GcdStep(a, b, q, r, Gcd(b, r), b1, r1, u1, v1);
      a', b', u, v := q * b1 + r1, b1, v1, u1 - v1 * q;
    }
  }

  lemma GcdStep(a: nat, b: nat, q: nat, r: nat, g: nat, b1: nat, r1: nat, u1: int, v1: int)
    requires a == q * b + r && b == b1 * g && r == r1 * g && u1 * b + v1 * r == g
    ensures a == (q * b1 + r1) * g
    ensures v1 * a + (u1 - v1 * q) * b == g
  {
    assert q * (b1 * g) == (q * b1) * g;
    assert (q * b1 + r1) * g == (q * b1) * g + r1 * g;
    assert v1 * a == v1 * (q * b) + v1 * r;
    assert v1 * (q * b) == (v1 * q) * b;
    assert (u1 - v1 * q) * b == u1 * b - (v1 * q) * b;
  }

  function Reduce(n: int, d: int): Rat
    requires d > 0
  {
    var g := Gcd(Abs(n), d);
    Rat(n / g, d / g)
  }

  /** mpq_canonicalize. */
  function Canon(n: int, d: int): Rat
    requires d != 0
  {
    if d > 0 then Reduce(n, d) else Reduce(-n, -d)
  }

  lemma ExactDivision(a: int, g: int, a': int)
    requires g > 0 && a == a' * g
    ensures a / g == a'
  {
    var k := a' - a / g;
    assert a == (a / g) * g + a % g;
    assert k * g == a' * g - (a / g) * g;
    assert k >= 1 ==> k * g >= g;
    assert k <= -1 ==> k * g <= -g;
  }

  lemma ReduceCorrect(n: int, d: int)
    requires d > 0
    ensures Canonical(Reduce(n, d))
    ensures Reduce(n, d).n * d == n * Reduce(n, d).d
  {
    var g := Gcd(Abs(n), d);
    var a, b, u, v := GcdFactors(Abs(n), d);
    var a0: int := a;
    var n', u' := if n >= 0 then a0 else -a0, if n >= 0 then u else -u;
    assert n == n' * g by { assert (-a0) * g == -(a0 * g); }
    assert u' * n == u * Abs(n) by { assert (-u) * n == u * (-n); }
    BezoutReduced(n', b, g, u', v);
    assert Bezout(n', b, u', v);
    ExactDivision(n, g, n');
    ExactDivision(d, g, b);
    assert b != 0;
    CrossEqual(n', b, g);
  }

  /** Canonicalising keeps the value and gives a canonical pair. */
  lemma CanonCorrect(n: int, d: int)
    requires d != 0
    ensures Canonical(Canon(n, d))
    ensures Canon(n, d).n * d == n * Canon(n, d).d
  {
    if d > 0 {
      ReduceCorrect(n, d);
    } else {
      ReduceCorrect(-n, -d);
      var q := Canon(n, d);
      assert q.n * (-d) == -(q.n * d) && (-n) * q.d == -(n * q.d);
    }
  }

  lemma CrossEqual(n: int, b: int, g: int)
    ensures n * (b * g) == (n * g) * b
  {
  }

  lemma BezoutReduced(a: int, b: int, g: int, u: int, v: int)
    requires g > 0 && u * (a * g) + v * (b * g) == g
    ensures u * a + v * b == 1
  {
    assert u * (a * g) == (u * a) * g;
    assert v * (b * g) == (v * b) * g;
    var k := u * a + v * b;
    assert k * g == g;
    assert k >= 2 ==> k * g >= 2 * g;
    assert k <= 0 ==> k * g <= 0;
  }

  /** A value has one canonical pair. */
  lemma CanonicalUnique(q: Rat, r: Rat)
    requires Canonical(q) && Canonical(r) && q.n * r.d == r.n * q.d
    ensures q == r
  {
    var u, v :| Bezout(q.n, q.d, u, v);
    var u', v' :| Bezout(r.n, r.d, u', v');
    DenominatorDivides(q, r, u, v);
    DenominatorDivides(r, q, u', v');
    var i, j := u * r.n + v * r.d, u' * q.n + v' * q.d;
    PositiveFactor(q.d, i, r.d);
    PositiveFactor(r.d, j, q.d);
    assert q.d == r.d;
    SameNumerator(q.n, r.n, q.d);
  }

  lemma DenominatorDivides(q: Rat, r: Rat, u: int, v: int)
    requires Bezout(q.n, q.d, u, v) && q.n * r.d == r.n * q.d
    ensures r.d == q.d * (u * r.n + v * r.d)
  {
    assert r.d == (u * q.n + v * q.d) * r.d;
    assert (u * q.n) * r.d == u * (q.n * r.d);
    assert u * (r.n * q.d) == q.d * (u * r.n);
    assert (v * q.d) * r.d == q.d * (v * r.d);
    assert q.d * (u * r.n) + q.d * (v * r.d) == q.d * (u * r.n + v * r.d);
  }

  lemma PositiveFactor(a: int, k: int, b: int)
    requires a > 0 && b > 0 && b == a * k
    ensures a <= b
  {
    assert k <= 0 ==> a * k <= 0;
    assert k >= 1 ==> a * k >= a;
  }

  lemma SameNumerator(a: int, b: int, d: int)
    requires d > 0 && a * d == b * d
    ensures a == b
  {
    assert (a - b) * d == 0;
  }

  /** Adding a whole number to a fraction in lowest terms needs no reduction. */
  lemma ShiftCanonical(q: Rat, z: int)
    requires Canonical(q)
    ensures Canonical(Rat(q.n + z * q.d, q.d))
  {
    var u, v :| Bezout(q.n, q.d, u, v);
    var w := v - u * z;
    assert u * (q.n + z * q.d) + w * q.d == 1 by {
      assert u * (z * q.d) == (u * z) * q.d;
    }
    assert Bezout(q.n + z * q.d, q.d, u, w);
  }

  // ----- arithmetic

  datatype QOp = QPlus | QMinus | QTimes | QDivides

  predicate QDefined(op: QOp, s: Rat) {
    op == QDivides ==> s.n != 0
  }

  /** mpq_add, mpq_sub, mpq_mul and mpq_div. */
  function QApply(op: QOp, r: Rat, s: Rat): Rat
    requires r.d > 0 && s.d > 0 && QDefined(op, s)
  {
    assert r.d * s.d != 0 && (op == QDivides ==> r.d * s.n != 0);
    match op
    case QPlus => Canon(r.n * s.d + s.n * r.d, r.d * s.d)
    case QMinus => Canon(r.n * s.d - s.n * r.d, r.d * s.d)
    case QTimes => Canon(r.n * s.n, r.d * s.d)
    case QDivides => Canon(r.n * s.d, r.d * s.n)
  }

  lemma QApplyCanonical(op: QOp, r: Rat, s: Rat)
    requires r.d > 0 && s.d > 0 && QDefined(op, s)
    ensures Canonical(QApply(op, r, s))
  {
    assert r.d * s.d != 0 && (op == QDivides ==> r.d * s.n != 0);
    match op
    case QPlus => CanonCorrect(r.n * s.d + s.n * r.d, r.d * s.d);
    case QMinus => CanonCorrect(r.n * s.d - s.n * r.d, r.d * s.d);
    case QTimes => CanonCorrect(r.n * s.n, r.d * s.d);
    case QDivides => CanonCorrect(r.n * s.d, r.d * s.n);
  }

  function QNegate(q: Rat): Rat {
    Rat(-q.n, q.d)
  }

  function Whole(z: int): Rat {
    Rat(z, 1)
  }

  lemma NegateCanonical(q: Rat)
    requires Canonical(q)
    ensures Canonical(QNegate(q))
  {
    var u, v :| Bezout(q.n, q.d, u, v);
    assert (-u) * (-q.n) == u * q.n;
    assert Bezout(-q.n, q.d, -u, v);
  }

  /** The mixed shortcuts: adding or subtracting a whole number directly gives
      what converting it and calling the library would. */
  lemma MixedPlus(q: Rat, z: int)
    requires Canonical(q)
    ensures QApply(QPlus, q, Whole(z)) == Rat(q.n + z * q.d, q.d)
    ensures QApply(QPlus, Whole(z), q) == Rat(q.n + z * q.d, q.d)
    ensures QApply(QMinus, q, Whole(z)) == Rat(q.n - z * q.d, q.d)
    ensures QApply(QMinus, Whole(z), q) == Rat(z * q.d - q.n, q.d)
  {
    ShiftCanonical(q, z);
    ShiftCanonical(q, -z);
    assert (-z) * q.d == -(z * q.d);
    NegateCanonical(Rat(q.n - z * q.d, q.d));
    CanonNoop(Rat(q.n + z * q.d, q.d));
    CanonNoop(Rat(q.n - z * q.d, q.d));
    CanonNoop(Rat(z * q.d - q.n, q.d));
  }

  lemma CanonNoop(q: Rat)
    requires Canonical(q)
    ensures Canon(q.n, q.d) == q
  {
    CanonCorrect(q.n, q.d);
    CanonicalUnique(Canon(q.n, q.d), q);
  }

  lemma ReduceNegate(n: int, d: int)
    requires d > 0
    ensures Reduce(-n, d) == QNegate(Reduce(n, d))
  {
    var g := Gcd(Abs(n), d);
    var a, b, u, v := GcdFactors(Abs(n), d);
    var a0: int := a;
    var n' := if n >= 0 then a0 else -a0;
    assert n == n' * g && -n == (-n') * g by {
      assert (-a0) * g == -(a0 * g);
    }
    ExactDivision(n, g, n');
    ExactDivision(-n, g, -n');
  }

  /** A product or quotient by a negative number is that by its absolute value,
      negated. */
  lemma NegatedScalar(q: Rat, l: int)
    requires q.d > 0 && l > 0
    ensures QApply(QTimes, q, Whole(-l)) == QNegate(QApply(QTimes, q, Whole(l)))
    ensures QApply(QDivides, q, Whole(-l)) == QNegate(QApply(QDivides, q, Whole(l)))
  {
    ReduceNegate(q.n * l, q.d);
    assert q.n * (-l) == -(q.n * l);
    assert q.d * l > 0 && q.d * (-l) == -(q.d * l);
    ReduceNegate(q.n, q.d * l);
  }

  lemma ZeroProduct(q: Rat)
    requires q.d > 0
    ensures QApply(QTimes, q, Whole(0)) == Rat(0, 1)
  {
    var d := q.d;
    SmallRemainderZero(d);
    assert Gcd(d, 0) == d && Gcd(0, d) == d;
    ExactDivision(d, d, 1);
    ExactDivision(0, d, 0);
  }

  lemma SmallRemainderZero(d: int)
    requires d > 0
    ensures 0 % d == 0
  {
  }

  lemma UnitScalar(q: Rat)
    requires Canonical(q)
    ensures QApply(QTimes, q, Whole(1)) == q == QApply(QDivides, q, Whole(1))
  {
    CanonNoop(q);
  }

  lemma ProductCommutes(q: Rat, z: int)
    requires q.d > 0
    ensures QApply(QTimes, Whole(z), q) == QApply(QTimes, q, Whole(z))
  {
    assert z * q.n == q.n * z && 1 * q.d == q.d * 1;
  }

  // ----- the operations are those of the numbers

  /** The number that a pair stands for. */
  function Number(q: Rat): real
    requires q.d != 0
  {
    q.n as real / q.d as real
  }

  lemma ProductReal(a: int, b: int)
    ensures (a * b) as real == a as real * b as real
  {
  }

  lemma SameQuotient(x: real, y: real, z: real, w: real)
    requires y != 0.0 && w != 0.0 && x * w == z * y
    ensures x / y == z / w
  {
    assert ((z / w) * y) * w == z * y by {
      assert (z / w) * w == z;
    }
    assert (x - (z / w) * y) * w == 0.0;
  }

  lemma CanonNumber(n: int, d: int)
    requires d != 0
    ensures Canon(n, d).d > 0 && Number(Canon(n, d)) == n as real / d as real
  {
    CanonCorrect(n, d);
    var c := Canon(n, d);
    ProductReal(c.n, d);
    ProductReal(n, c.d);
    SameQuotient(c.n as real, c.d as real, n as real, d as real);
  }

  /** Sum, difference, product and quotient of the numbers. */
  lemma Arithmetic(op: QOp, r: Rat, s: Rat)
    requires r.d > 0 && s.d > 0 && QDefined(op, s)
    ensures QApply(op, r, s).d > 0
    ensures op == QPlus ==> Number(QApply(op, r, s)) == Number(r) + Number(s)
    ensures op == QMinus ==> Number(QApply(op, r, s)) == Number(r) - Number(s)
    ensures op == QTimes ==> Number(QApply(op, r, s)) == Number(r) * Number(s)
    ensures op == QDivides ==> Number(s) != 0.0 && Number(QApply(op, r, s)) == Number(r) / Number(s)
  {
    hide QApply, Number;
    match op
    case QPlus => SumNumber(r, s);
    case QMinus => DifferenceNumber(r, s);
    case QTimes => ProductNumber(r, s);
    case QDivides => QuotientNumber(r, s);
  }

  lemma SumNumber(r: Rat, s: Rat)
    requires r.d > 0 && s.d > 0
    ensures QApply(QPlus, r, s).d > 0 && Number(QApply(QPlus, r, s)) == Number(r) + Number(s)
  {
    hide Canon;
    ProductReal(r.n, s.d);
    ProductReal(s.n, r.d);
    ProductReal(r.d, s.d);
    CanonNumber(r.n * s.d + s.n * r.d, r.d * s.d);
    RealSum(r.n as real, r.d as real, s.n as real, s.d as real);
  }

  lemma DifferenceNumber(r: Rat, s: Rat)
    requires r.d > 0 && s.d > 0
    ensures QApply(QMinus, r, s).d > 0 && Number(QApply(QMinus, r, s)) == Number(r) - Number(s)
  {
    hide Canon;
    ProductReal(r.n, s.d);
    ProductReal(s.n, r.d);
    ProductReal(r.d, s.d);
    CanonNumber(r.n * s.d - s.n * r.d, r.d * s.d);
    RealSum(r.n as real, r.d as real, -(s.n as real), s.d as real);
    RealNegative(s.n as real, s.d as real);
  }

  lemma ProductNumber(r: Rat, s: Rat)
    requires r.d > 0 && s.d > 0
    ensures QApply(QTimes, r, s).d > 0 && Number(QApply(QTimes, r, s)) == Number(r) * Number(s)
  {
    hide Canon;
    ProductReal(r.n, s.n);
    ProductReal(r.d, s.d);
    CanonNumber(r.n * s.n, r.d * s.d);
    RealProduct(r.n as real, r.d as real, s.n as real, s.d as real);
  }

  lemma QuotientNumber(r: Rat, s: Rat)
    requires r.d > 0 && s.d > 0 && s.n != 0
    ensures QApply(QDivides, r, s).d > 0
    ensures Number(s) != 0.0 && Number(QApply(QDivides, r, s)) == Number(r) / Number(s)
  {
    hide Canon;
    ProductReal(r.n, s.d);
    ProductReal(r.d, s.n);
    assert r.d * s.n != 0;
    CanonNumber(r.n * s.d, r.d * s.n);
    RealQuotient(r.n as real, r.d as real, s.n as real, s.d as real);
  }

  lemma RealSum(a: real, b: real, c: real, d: real)
    requires b != 0.0 && d != 0.0
    ensures b * d != 0.0 && (a * d + c * b) / (b * d) == a / b + c / d
  {
    var x, y := a / b, c / d;
    assert x * b == a && y * d == c;
    assert (x + y) * (b * d) == (x * b) * d + (y * d) * b;
    SameQuotient(a * d + c * b, b * d, x + y, 1.0);
  }

  lemma RealNegative(c: real, d: real)
    requires d != 0.0
    ensures (-c) / d == -(c / d)
  {
    SameQuotient(-c, d, -(c / d), 1.0);
  }

  lemma RealProduct(a: real, b: real, c: real, d: real)
    requires b != 0.0 && d != 0.0
    ensures b * d != 0.0 && (a * c) / (b * d) == (a / b) * (c / d)
  {
    var x, y := a / b, c / d;
    assert x * b == a && y * d == c;
    assert (x * y) * (b * d) == (x * b) * (y * d);
    SameQuotient(a * c, b * d, x * y, 1.0);
  }

  lemma RealQuotient(a: real, b: real, c: real, d: real)
    requires b != 0.0 && c != 0.0 && d != 0.0
    ensures b * c != 0.0 && c / d != 0.0 && (a * d) / (b * c) == (a / b) / (c / d)
  {
    var x, y := a / b, c / d;
    assert x * b == a && y * d == c;
    var z := x / y;
    assert z * y == x;
    assert z * (b * c) == ((z * y) * b) * d;
    SameQuotient(a * d, b * c, z, 1.0);
  }

  lemma UnaryNumber(q: Rat)
    requires q.d > 0
    ensures Number(QNegate(q)) == -Number(q)
  {
    RealNegative(q.n as real, q.d as real);
  }

  lemma WholeNumber(z: int)
    ensures Number(Whole(z)) == z as real
  {
  }

  /** A number has one canonical pair. */
  lemma NumberUnique(q: Rat, r: Rat)
    requires Canonical(q) && Canonical(r) && Number(q) == Number(r)
    ensures q == r
  {
    var a, b, c, d := q.n as real, q.d as real, r.n as real, r.d as real;
    assert a == (a / b) * b && c == (c / d) * d;
    assert a * d == c * b;
    ProductReal(q.n, r.d);
    ProductReal(r.n, q.d);
    CanonicalUnique(q, r);
  }

  /** The laws of arithmetic, on canonical pairs. */
  lemma Laws(r: Rat, s: Rat, t: Rat)
    requires Canonical(r) && Canonical(s) && Canonical(t)
    ensures QApply(QPlus, r, s).d > 0 && QApply(QMinus, r, s).d > 0
    ensures QApply(QPlus, r, s) == QApply(QPlus, s, r) && QApply(QTimes, r, s) == QApply(QTimes, s, r)
    ensures QApply(QPlus, QApply(QMinus, r, s), s) == r
    ensures s.n != 0 ==> QApply(QDivides, r, s).d > 0 && QApply(QTimes, QApply(QDivides, r, s), s) == r
    ensures QApply(QTimes, r, t).d > 0 && QApply(QTimes, s, t).d > 0
    ensures QApply(QTimes, QApply(QPlus, r, s), t) == QApply(QPlus, QApply(QTimes, r, t), QApply(QTimes, s, t))
  {
    hide QApply, Canonical, Number;
    LawsOfSum(r, s);
    LawsOfQuotient(r, s);
    Distributes(r, s, t);
  }

  lemma Known(op: QOp, r: Rat, s: Rat)
    requires r.d > 0 && s.d > 0 && QDefined(op, s)
    ensures Canonical(QApply(op, r, s)) && QApply(op, r, s).d > 0
    ensures op == QPlus ==> Number(QApply(op, r, s)) == Number(r) + Number(s)
    ensures op == QMinus ==> Number(QApply(op, r, s)) == Number(r) - Number(s)
    ensures op == QTimes ==> Number(QApply(op, r, s)) == Number(r) * Number(s)
    ensures op == QDivides ==> Number(s) != 0.0 && Number(QApply(op, r, s)) == Number(r) / Number(s)
  {
    hide QApply;
    Arithmetic(op, r, s);
    QApplyCanonical(op, r, s);
  }

  lemma LawsOfSum(r: Rat, s: Rat)
    requires Canonical(r) && Canonical(s)
    ensures QApply(QPlus, r, s).d > 0 && QApply(QMinus, r, s).d > 0
    ensures QApply(QPlus, r, s) == QApply(QPlus, s, r) && QApply(QTimes, r, s) == QApply(QTimes, s, r)
    ensures QApply(QPlus, QApply(QMinus, r, s), s) == r
  {
    hide QApply, Number;
    Known(QPlus, r, s);
    Known(QPlus, s, r);
    NumberUnique(QApply(QPlus, r, s), QApply(QPlus, s, r));
    Known(QTimes, r, s);
    Known(QTimes, s, r);
    NumberUnique(QApply(QTimes, r, s), QApply(QTimes, s, r));
    Known(QMinus, r, s);
    Known(QPlus, QApply(QMinus, r, s), s);
    NumberUnique(QApply(QPlus, QApply(QMinus, r, s), s), r);
  }

  lemma LawsOfQuotient(r: Rat, s: Rat)
    requires Canonical(r) && Canonical(s)
    ensures s.n != 0 ==> QApply(QDivides, r, s).d > 0 && QApply(QTimes, QApply(QDivides, r, s), s) == r
  {
    hide QApply, Number;
    if s.n != 0 {
      Known(QDivides, r, s);
      Known(QTimes, QApply(QDivides, r, s), s);
      assert (Number(r) / Number(s)) * Number(s) == Number(r);
      NumberUnique(QApply(QTimes, QApply(QDivides, r, s), s), r);
    }
  }

  lemma Distributes(r: Rat, s: Rat, t: Rat)
    requires Canonical(r) && Canonical(s) && Canonical(t)
    ensures QApply(QPlus, r, s).d > 0 && QApply(QTimes, r, t).d > 0 && QApply(QTimes, s, t).d > 0
    ensures QApply(QTimes, QApply(QPlus, r, s), t) == QApply(QPlus, QApply(QTimes, r, t), QApply(QTimes, s, t))
  {
    hide QApply, Number;
    Known(QPlus, r, s);
    Known(QTimes, QApply(QPlus, r, s), t);
    Known(QTimes, r, t);
    Known(QTimes, s, t);
    Known(QPlus, QApply(QTimes, r, t), QApply(QTimes, s, t));
    assert (Number(r) + Number(s)) * Number(t) == Number(r) * Number(t) + Number(s) * Number(t);
    NumberUnique(QApply(QTimes, QApply(QPlus, r, s), t), QApply(QPlus, QApply(QTimes, r, t), QApply(QTimes, s, t)));
  }

  /** Whole numbers add and multiply as integers do. */
  lemma WholeOperations(a: int, b: int)
    ensures QApply(QPlus, Whole(a), Whole(b)) == Whole(a + b)
    ensures QApply(QTimes, Whole(a), Whole(b)) == Whole(a * b)
  {
    assert Bezout(a + b, 1, 0, 1) && Bezout(a * b, 1, 0, 1);
    CanonNoop(Whole(a + b));
    CanonNoop(Whole(a * b));
  }
}

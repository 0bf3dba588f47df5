/** The algebra that AbstractGroup (crypto++/algebra.h) leaves to its
    implementations, with its laws as hypotheses, and the scalar multiple that
    every algorithm of algebra.cpp is meant to compute.

    Each law is a named predicate of its instance, so that a proof names the
    instances it uses.
 */
module Groups {

  datatype Group<!T> = Group(add: (T, T) -> T, inverse: T -> T, identity: T)

  ghost predicate AssociativeAt<T>(g: Group<T>, x: T, y: T, z: T) {
    g.add(g.add(x, y), z) == g.add(x, g.add(y, z))
  }

  ghost predicate UnitAt<T>(g: Group<T>, x: T) {
    g.add(x, g.identity) == x && g.add(g.identity, x) == x
  }

  ghost predicate InverseAt<T>(g: Group<T>, x: T) {
    g.add(x, g.inverse(x)) == g.identity && g.add(g.inverse(x), x) == g.identity
  }

  ghost predicate CommuteAt<T>(g: Group<T>, x: T, y: T) {
    g.add(x, y) == g.add(y, x)
  }

  ghost predicate IsMonoid<T(!new)>(g: Group<T>) {
    && (forall x, y, z :: AssociativeAt(g, x, y, z))
    && (forall x :: UnitAt(g, x))
  }

  ghost predicate IsGroup<T(!new)>(g: Group<T>) {
    IsMonoid(g) && forall x :: InverseAt(g, x)
  }

  ghost predicate IsCommutative<T(!new)>(g: Group<T>) {
    forall x, y :: CommuteAt(g, x, y)
  }

  lemma Associative<T(!new)>(g: Group<T>, x: T, y: T, z: T)
    requires IsMonoid(g)
    ensures g.add(g.add(x, y), z) == g.add(x, g.add(y, z))
  {
    assert AssociativeAt(g, x, y, z);
  }

  lemma Unit<T(!new)>(g: Group<T>, x: T)
    requires IsMonoid(g)
    ensures g.add(x, g.identity) == x && g.add(g.identity, x) == x
  {
    assert UnitAt(g, x);
  }

  lemma Inverse<T(!new)>(g: Group<T>, x: T)
    requires IsGroup(g)
    ensures g.add(x, g.inverse(x)) == g.identity && g.add(g.inverse(x), x) == g.identity
  {
    assert InverseAt(g, x);
  }

  /** x added to itself k times. */
  function Times<T>(g: Group<T>, k: nat, x: T): T {
    if k == 0 then g.identity else g.add(Times(g, k - 1, x), x)
  }

  /** The scalar multiple, with a negative scalar meaning the inverse. */
  function Smul<T>(g: Group<T>, k: int, x: T): T {
    if k >= 0 then Times(g, k, x) else g.inverse(Times(g, -k, x))
  }

  lemma TimesOne<T(!new)>(g: Group<T>, x: T)
    requires IsMonoid(g)
    ensures Times(g, 1, x) == x
  {
    Unit(g, x);
    assert Times(g, 0, x) == g.identity;
  }

  lemma {:induction false} TimesAdd<T(!new)>(g: Group<T>, a: nat, b: nat, x: T)
    requires IsMonoid(g)
    ensures Times(g, a + b, x) == g.add(Times(g, a, x), Times(g, b, x))
  {
    if b == 0 {
      Unit(g, Times(g, a, x));
    } else {
      TimesAdd(g, a, b - 1, x);
      Associative(g, Times(g, a, x), Times(g, b - 1, x), x);
    }
  }

  lemma {:induction false} TimesTimes<T(!new)>(g: Group<T>, a: nat, b: nat, x: T)
    requires IsMonoid(g)
    ensures a * b >= 0 && Times(g, a, Times(g, b, x)) == Times(g, a * b, x)
  {
    if a > 0 {
      TimesTimes(g, a - 1, b, x);
      assert a * b == (a - 1) * b + b;
      TimesAdd(g, (a - 1) * b, b, x);
    }
  }

  /** Multiples of commuting elements commute. */
  lemma {:induction false} TimesCommute<T(!new)>(g: Group<T>, b: nat, x: T, y: T)
    requires IsMonoid(g) && CommuteAt(g, x, y)
    ensures CommuteAt(g, x, Times(g, b, y))
  {
    if b == 0 {
      Unit(g, x);
    } else {
      var t := Times(g, b - 1, y);
      TimesCommute(g, b - 1, x, y);
      Associative(g, x, t, y);
      Associative(g, t, x, y);
      Associative(g, t, y, x);
    }
  }

  /** Scaling distributes over the sum of commuting elements. */
  lemma {:induction false} TimesSum<T(!new)>(g: Group<T>, k: nat, x: T, y: T)
    requires IsMonoid(g) && CommuteAt(g, x, y)
    ensures Times(g, k, g.add(x, y)) == g.add(Times(g, k, x), Times(g, k, y))
  {
    if k == 0 {
      Unit(g, g.identity);
    } else {
      var a, b := Times(g, k - 1, x), Times(g, k - 1, y);
      TimesSum(g, k - 1, x, y);
      Rearrange(g, a, b, x, y) by {
        TimesCommute(g, k - 1, x, y);
      }
    }
  }

  lemma Rearrange<T(!new)>(g: Group<T>, a: T, b: T, c: T, d: T)
    requires IsMonoid(g) && CommuteAt(g, c, b)
    ensures g.add(g.add(a, b), g.add(c, d)) == g.add(g.add(a, c), g.add(b, d))
  {
    Associative(g, a, b, g.add(c, d));
    Associative(g, b, c, d);
    Associative(g, c, b, d);
    Associative(g, a, c, g.add(b, d));
  }

  lemma InverseUnique<T(!new)>(g: Group<T>, x: T, y: T)
    requires IsGroup(g) && g.add(x, y) == g.identity
    ensures y == g.inverse(x)
  {
    Inverse(g, x);
    Associative(g, g.inverse(x), x, y);
    Unit(g, y);
    Unit(g, g.inverse(x));
  }

  lemma SmulNegate<T(!new)>(g: Group<T>, k: int, x: T)
    requires IsGroup(g)
    ensures g.inverse(Smul(g, k, x)) == Smul(g, -k, x)
  {
    var t := Times(g, if k >= 0 then k else -k, x);
    if k == 0 {
      Unit(g, g.identity);
      InverseUnique(g, g.identity, g.identity);
    } else if k < 0 {
      Inverse(g, t);
      InverseUnique(g, g.inverse(t), t);
    }
  }

  lemma SmulSuccessor<T(!new)>(g: Group<T>, k: int, x: T)
    requires IsGroup(g)
    ensures Smul(g, k + 1, x) == g.add(Smul(g, k, x), x)
  {
    if k < 0 {
      // with t the smaller multiple, (t + x) + (-(t + x) + x) + -... collapses
      var t := Times(g, -k - 1, x);
      var s := Times(g, -k, x);
      TimesOne(g, x);
      TimesAdd(g, 1, -k - 1, x);
      var u := g.add(g.inverse(s), x);
      // u + t == identity, hence t + u == identity
      Associative(g, g.inverse(s), x, t);
      Inverse(g, s);
      Inverse(g, u);
      InverseUnique(g, u, t);
      InverseUnique(g, t, u);
      SmulNegate(g, -k - 1, x);
    }
  }

  /** When may the scalar k be used: always in a group, and in a monoid when
      it needs no inverse. */
  ghost predicate Scalar<T(!new)>(g: Group<T>, k: int) {
    IsGroup(g) || (IsMonoid(g) && k >= 0)
  }

  lemma {:induction false} SmulAdd<T(!new)>(g: Group<T>, a: int, b: int, x: T)
    requires Scalar(g, a) && Scalar(g, b)
    ensures Smul(g, a + b, x) == g.add(Smul(g, a, x), Smul(g, b, x))
    decreases if b >= 0 then b else -b
  {
    if a >= 0 && b >= 0 {
      TimesAdd(g, a, b, x);
    } else if b == 0 {
      Unit(g, Smul(g, a, x));
    } else if b > 0 {
      SmulAdd(g, a, b - 1, x);
      SmulSuccessor(g, b - 1, x);
      SmulSuccessor(g, a + b - 1, x);
      Associative(g, Smul(g, a, x), Smul(g, b - 1, x), x);
    } else {
      SmulAdd(g, a, b + 1, x);
      SmulSuccessor(g, b, x);
      SmulSuccessor(g, a + b, x);
      Cancel(g, Smul(g, a + b, x), Smul(g, a, x), Smul(g, b, x), x);
    }
  }

  lemma Cancel<T(!new)>(g: Group<T>, s: T, a: T, b: T, x: T)
    requires IsGroup(g)
    requires g.add(s, x) == g.add(a, g.add(b, x))
    ensures s == g.add(a, b)
  {
    var n := g.inverse(x);
    Inverse(g, x);
    Associative(g, a, b, x);
    Associative(g, s, x, n);
    Associative(g, g.add(a, b), x, n);
    Unit(g, s);
    Unit(g, g.add(a, b));
  }

  lemma SmulDouble<T(!new)>(g: Group<T>, a: int, x: T)
    requires Scalar(g, a)
    ensures g.add(Smul(g, a, x), Smul(g, a, x)) == Smul(g, 2 * a, x)
  {
    SmulAdd(g, a, a, x);
  }
}

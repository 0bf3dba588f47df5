/** AbstractGroup::CascadeScalarMultiply (crypto++/algebra.cpp): e1 * x + e2 * y
    by one pass over the bits of both exponents, with a table of small
    combinations of x and y.  Every element is tracked by the pair of integers
    that it combines x and y with. */
module CascadeMultiplication {
  import opened Powers
  import opened Groups
  import opened WindowSliders

  /** a * x + b * y */
  function Lin<T>(g: Group<T>, x: T, a: nat, y: T, b: nat): T {
    g.add(Times(g, a, x), Times(g, b, y))
  }

  lemma LinAdd<T(!new)>(g: Group<T>, x: T, a: nat, c: nat, y: T, b: nat, d: nat)
    requires IsMonoid(g) && CommuteAt(g, x, y)
    ensures g.add(Lin(g, x, a, y, b), Lin(g, x, c, y, d)) == Lin(g, x, a + c, y, b + d)
  {
    TimesAdd(g, a, c, x);
    TimesAdd(g, b, d, y);
    TimesCommute(g, b, x, y);
    TimesCommute(g, c, Times(g, b, y), x);
    Rearrange(g, Times(g, a, x), Times(g, b, y), Times(g, c, x), Times(g, d, y));
  }

  lemma LinUnits<T(!new)>(g: Group<T>, x: T, y: T)
    requires IsMonoid(g)
    ensures Lin(g, x, 1, y, 0) == x && Lin(g, x, 0, y, 1) == y && Lin(g, x, 0, y, 0) == g.identity
  {
    TimesOne(g, x);
    TimesOne(g, y);
    Unit(g, x);
    Unit(g, y);
    Unit(g, g.identity);
  }

  // ----- the power table

  /** Where the table keeps a * x + b * y. */
  function Index(a: nat, b: nat, w: nat): int {
    Shl(b, w) + a
  }

  lemma IndexInRange(a: nat, b: nat, w: nat)
    requires a < Pow2(w)
    ensures Index(a, b, w) >= 0
    ensures b < Pow2(w) <==> Index(a, b, w) < Shl(Pow2(w), w)
  {
    ShlZero(w);
    ShlMonotone(0, b, w);
    if b < Pow2(w) {
      ShlSum(b, 1, w);
      ShlOne(w);
      ShlMonotone(b + 1, Pow2(w), w);
    } else {
      ShlMonotone(Pow2(w), b, w);
    }
  }

  lemma IndexInjective(a: nat, b: nat, a': nat, b': nat, w: nat)
    requires a < Pow2(w) && a' < Pow2(w) && Index(a, b, w) == Index(a', b', w)
    ensures a == a' && b == b'
  {
    IndexInRange(a, b, w);
    ShrUnique(Index(a, b, w), w, b, a);
    ShrUnique(Index(a, b, w), w, b', a');
  }

  lemma NextRow(a: nat, b: nat, w: nat)
    ensures Index(a, b + 1, w) == Index(a, b, w) + Pow2(w)
    ensures Index(a + 1, b, w) == Index(a, b, w) + 1
    ensures Index(a, 0, w) == a
  {
    ShlSum(b, 1, w);
    ShlOne(w);
    ShlZero(w);
  }

  ghost predicate Entry<T>(g: Group<T>, x: T, y: T, w: nat, table: seq<T>, a: nat, b: nat) {
    && a < Pow2(w) && b < Pow2(w)
    && 0 <= Index(a, b, w) < |table|
    && table[Index(a, b, w)] == Lin(g, x, a, y, b)
  }

  /** What the table holds, it keeps. */
  ghost predicate Grows<T(!new)>(g: Group<T>, x: T, y: T, w: nat, before: seq<T>, after: seq<T>) {
    forall a, b :: Entry(g, x, y, w, before, a, b) ==> Entry(g, x, y, w, after, a, b)
  }

  method SetEntry<T(!new)>(
    g: Group<T>, x: T, y: T, w: nat, table: array<T>, i: nat, value: T, ghost a: nat, ghost b: nat)
    requires table.Length == Shl(Pow2(w), w)
    requires a < Pow2(w) && b < Pow2(w) && i == Index(a, b, w) && value == Lin(g, x, a, y, b)
    modifies table
    ensures Grows(g, x, y, w, old(table[..]), table[..])
    ensures Entry(g, x, y, w, table[..], a, b)
  {
    hide Lin, Shl, Pow2, Index;
    IndexInRange(a, b, w);
    table[i] := value;
    forall a', b' | Entry(g, x, y, w, old(table[..]), a', b')
      ensures Entry(g, x, y, w, table[..], a', b')
    {
      if Index(a', b', w) == i {
        IndexInjective(a, b, a', b', w);
      }
    }
  }

  /** The entries that a lookup may ask for: one of the two numbers is odd. */
  ghost predicate Complete<T(!new)>(g: Group<T>, x: T, y: T, w: nat, table: seq<T>) {
    forall a, b :: 0 <= a < Pow2(w) && 0 <= b < Pow2(w) && (a % 2 == 1 || b % 2 == 1) ==> Entry(g, x, y, w, table, a, b)
  }

  /** x, 3x, 5x, ... */
  method FillOddX<T(!new)>(g: Group<T>, x: T, y: T, w: nat, table: array<T>)
    requires IsMonoid(g) && CommuteAt(g, x, y) && table.Length == Shl(Pow2(w), w)
    requires Entry(g, x, y, w, table[..], 1, 0) && Entry(g, x, y, w, table[..], 2, 0)
    modifies table
    ensures Grows(g, x, y, w, old(table[..]), table[..])
    ensures forall a :: 0 <= a < Pow2(w) && a % 2 == 1 ==> Entry(g, x, y, w, table[..], a, 0)
  {
    hide Lin, Shl, Pow2, IsMonoid;
    var i := 3;
    while i < Pow2(w)
      invariant 3 <= i && i % 2 == 1
      invariant Grows(g, x, y, w, old(table[..]), table[..])
      invariant forall a :: 0 <= a < i && a < Pow2(w) && a % 2 == 1 ==> Entry(g, x, y, w, table[..], a, 0)
      decreases Pow2(w) - i
    {
      assert Entry(g, x, y, w, table[..], i - 2, 0);
      assert Entry(g, x, y, w, table[..], 2, 0);
      NextRow(i - 2, 0, w);
      NextRow(2, 0, w);
      NextRow(i, 0, w);
      LinAdd(g, x, i - 2, 2, y, 0, 0);
      SetEntry(g, x, y, w, table, i, g.add(table[i - 2], table[2]), i, 0);
      i := i + 2;
    }
  }

  /** Multiples of y added to every odd multiple of x. */
  method FillRows<T(!new)>(g: Group<T>, x: T, y: T, w: nat, table: array<T>)
    requires IsMonoid(g) && CommuteAt(g, x, y) && table.Length == Shl(Pow2(w), w) && w >= 1
    requires forall a :: 0 <= a < Pow2(w) && a % 2 == 1 ==> Entry(g, x, y, w, table[..], a, 0)
    modifies table
    ensures Grows(g, x, y, w, old(table[..]), table[..])
    ensures forall a, b :: 0 <= a < Pow2(w) && 0 <= b < Pow2(w) && a % 2 == 1 ==> Entry(g, x, y, w, table[..], a, b)
  {
    hide Lin, Shl, Pow2, IsMonoid;
    var i := 1;
    while i < Pow2(w)
      invariant 1 <= i && i % 2 == 1
      invariant Grows(g, x, y, w, old(table[..]), table[..])
      invariant forall a, b :: 0 <= a < i && a < Pow2(w) && 0 <= b < Pow2(w) && a % 2 == 1 ==>
        Entry(g, x, y, w, table[..], a, b)
      decreases Pow2(w) - i
    {
      FillRow(g, x, y, w, table, i);
      i := i + 2;
    }
  }

  method FillRow<T(!new)>(g: Group<T>, x: T, y: T, w: nat, table: array<T>, i: nat)
    requires IsMonoid(g) && CommuteAt(g, x, y) && table.Length == Shl(Pow2(w), w)
    requires Entry(g, x, y, w, table[..], i, 0)
    modifies table
    ensures Grows(g, x, y, w, old(table[..]), table[..])
    ensures forall b :: 0 <= b < Pow2(w) ==> Entry(g, x, y, w, table[..], i, b)
  {
    hide Lin, Shl, Pow2, IsMonoid, Index;
    var j := i + Pow2(w);
    ghost var b := 1;
    NextRow(i, 0, w);
    while j < Shl(Pow2(w), w)
      invariant b >= 1 && j == Index(i, b, w)
      invariant Grows(g, x, y, w, old(table[..]), table[..])
      invariant forall k :: 0 <= k < b && k < Pow2(w) ==> Entry(g, x, y, w, table[..], i, k)
      decreases Shl(Pow2(w), w) - j
    {
      IndexInRange(i, b, w);
      NextRow(i, b - 1, w);
      NextRow(i, b, w);
      assert Entry(g, x, y, w, table[..], i, b - 1);
      LinAdd(g, x, i, 0, y, b - 1, 1);
      LinUnits(g, x, y);
      SetEntry(g, x, y, w, table, j, g.add(table[j - Pow2(w)], y), i, b);
      j := j + Pow2(w);
      b := b + 1;
    }
    IndexInRange(i, b, w);
  }

  /** y, 3y, 5y, ... */
  method FillOddY<T(!new)>(g: Group<T>, x: T, y: T, w: nat, table: array<T>)
    requires IsMonoid(g) && CommuteAt(g, x, y) && table.Length == Shl(Pow2(w), w)
    requires Entry(g, x, y, w, table[..], 0, 1) && Entry(g, x, y, w, table[..], 0, 2)
    modifies table
    ensures Grows(g, x, y, w, old(table[..]), table[..])
    ensures forall b :: 0 <= b < Pow2(w) && b % 2 == 1 ==> Entry(g, x, y, w, table[..], 0, b)
  {
    hide Lin, Shl, Pow2, IsMonoid, Index;
    var ts := Pow2(w);
    var i := 3 * ts;
    ghost var b := 3;
    NextRow(0, 0, w);
    NextRow(0, 1, w);
    NextRow(0, 2, w);
    while i < Shl(ts, w)
      invariant b >= 3 && b % 2 == 1 && i == Index(0, b, w)
      invariant Grows(g, x, y, w, old(table[..]), table[..])
      invariant forall k :: 0 <= k < b && k < Pow2(w) && k % 2 == 1 ==> Entry(g, x, y, w, table[..], 0, k)
      decreases Shl(ts, w) - i
    {
      IndexInRange(0, b, w);
      NextRow(0, b - 2, w);
      NextRow(0, b - 1, w);
      NextRow(0, b, w);
      NextRow(0, b + 1, w);
      assert Entry(g, x, y, w, table[..], 0, b - 2);
      assert Entry(g, x, y, w, table[..], 0, 2);
      LinAdd(g, x, 0, 0, y, b - 2, 2);
      SetEntry(g, x, y, w, table, i, g.add(table[i - 2 * ts], table[2 * ts]), 0, b);
      i := i + 2 * ts;
      b := b + 2;
    }
    IndexInRange(0, b, w);
  }

  /** Even multiples of x added to every odd multiple of y. */
  method FillEvenX<T(!new)>(g: Group<T>, x: T, y: T, w: nat, table: array<T>)
    requires IsMonoid(g) && CommuteAt(g, x, y) && table.Length == Shl(Pow2(w), w) && w >= 1
    requires forall a, b :: 0 <= a < Pow2(w) && 0 <= b < Pow2(w) && a % 2 == 1 ==> Entry(g, x, y, w, table[..], a, b)
    requires forall b :: 0 <= b < Pow2(w) && b % 2 == 1 ==> Entry(g, x, y, w, table[..], 0, b)
    modifies table
    ensures Grows(g, x, y, w, old(table[..]), table[..])
    ensures Complete(g, x, y, w, table[..])
  {
    hide Lin, Shl, Pow2, IsMonoid, Index;
    var ts := Pow2(w);
    var i := ts;
    ghost var b := 1;
    NextRow(0, 0, w);
    while i < Shl(ts, w)
      invariant b >= 1 && b % 2 == 1 && i == Index(0, b, w)
      invariant Grows(g, x, y, w, old(table[..]), table[..])
      invariant forall a, k :: 0 <= a < Pow2(w) && 0 <= k < b && k < Pow2(w) && k % 2 == 1 ==>
        Entry(g, x, y, w, table[..], a, k)
      decreases Shl(ts, w) - i
    {
      IndexInRange(0, b, w);
      NextRow(0, b, w);
      NextRow(0, b + 1, w);
      FillEvenRow(g, x, y, w, table, i, b);
      i := i + 2 * ts;
      b := b + 2;
    }
    IndexInRange(0, b, w);
  }

  method FillEvenRow<T(!new)>(g: Group<T>, x: T, y: T, w: nat, table: array<T>, i: nat, ghost b: nat)
    requires IsMonoid(g) && CommuteAt(g, x, y) && table.Length == Shl(Pow2(w), w) && w >= 1
    requires b < Pow2(w) && i == Index(0, b, w)
    requires forall a :: 0 <= a < Pow2(w) && a % 2 == 1 ==> Entry(g, x, y, w, table[..], a, b)
    requires Entry(g, x, y, w, table[..], 0, b)
    modifies table
    ensures Grows(g, x, y, w, old(table[..]), table[..])
    ensures forall a :: 0 <= a < Pow2(w) ==> Entry(g, x, y, w, table[..], a, b)
  {
    hide Lin, Shl, Pow2, IsMonoid;
    Pow2Even(w);
    var j := i + 2;
    while j < i + Pow2(w)
      invariant 2 <= j - i && (j - i) % 2 == 0
      invariant Grows(g, x, y, w, old(table[..]), table[..])
      invariant forall a :: 0 <= a < j - i && a < Pow2(w) ==> Entry(g, x, y, w, table[..], a, b)
      invariant forall a :: 0 <= a < Pow2(w) && a % 2 == 1 ==> Entry(g, x, y, w, table[..], a, b)
      decreases i + Pow2(w) - j
    {
      ghost var a := j - i;
      assert Entry(g, x, y, w, table[..], a - 1, b);
      LinAdd(g, x, a - 1, 1, y, b, 0);
      LinUnits(g, x, y);
      SetEntry(g, x, y, w, table, j, g.add(table[j - 1], x), a, b);
      j := j + 2;
    }
  }

  /** The set-up of the power table, whatever its elements were before. */
  method FillTable<T(!new)>(g: Group<T>, x: T, y: T, w: nat, table: array<T>)
    requires IsMonoid(g) && CommuteAt(g, x, y) && w >= 1 && table.Length == Shl(Pow2(w), w)
    modifies table
    ensures Complete(g, x, y, w, table[..])
  {
    hide Lin, Shl, Pow2, IsMonoid, Index;
    var ts := Pow2(w);
    Pow2Even(w);
    LinUnits(g, x, y);
    LinAdd(g, x, 1, 0, y, 0, 1);
    NextRow(1, 0, w);
    NextRow(0, 0, w);
    NextRow(0, 1, w);
    SetEntry(g, x, y, w, table, 1, x, 1, 0);
    SetEntry(g, x, y, w, table, ts, y, 0, 1);
    if w == 1 {
      assert Pow2(1) == 2 by { SmallPowers(); }
      SetEntry(g, x, y, w, table, 3, g.add(x, y), 1, 1);
    } else {
      assert ts >= 4 by { SmallPowers(); Pow2Monotone(2, w); }
      NextRow(2, 0, w);
      LinAdd(g, x, 1, 1, y, 0, 0);
      LinAdd(g, x, 0, 0, y, 1, 1);
      SetEntry(g, x, y, w, table, 2, g.add(x, x), 2, 0);
      SetEntry(g, x, y, w, table, 2 * ts, g.add(y, y), 0, 2);
      FillOddX(g, x, y, w, table);
      FillRows(g, x, y, w, table);
      FillOddY(g, x, y, w, table);
      FillEvenX(g, x, y, w, table);
    }
  }

  lemma SmallPowers()
    ensures Pow2(0) == 1 && Pow2(1) == 2 && Pow2(2) == 4
  {
    assert Pow2(0) == 1;
  }

  // ----- the pass over the exponents

  method DoubleTimes<T(!new)>(
    g: Group<T>, x: T, y: T, start: T, squares: nat, ghost a: nat, ghost b: nat)
    returns (r: T)
    requires IsMonoid(g) && CommuteAt(g, x, y) && start == Lin(g, x, a, y, b)
    ensures Shl(a, squares) >= 0 && Shl(b, squares) >= 0
    ensures r == Lin(g, x, Shl(a, squares), y, Shl(b, squares))
  {
    hide Lin, IsMonoid;
    r := start;
    ghost var c, d := a, b;
    for k := 0 to squares
      invariant c == Shl(a, k) && d == Shl(b, k)
      invariant r == Lin(g, x, c, y, d)
    {
      LinAdd(g, x, c, c, y, d, d);
      r := g.add(r, r);
      c, d := 2 * c, 2 * d;
    }
  }

  /** The loop that strips common factors of two off a window: one of the two
      numbers ends up odd, and there were enough squarings to move. */
  method StripTwos(p1: nat, p2: nat, squares: nat, ghost bits: nat) returns (q1: nat, q2: nat, before: nat, after: nat)
    requires p1 < Pow2(bits) && p2 < Pow2(bits) && bits <= squares + 1
    ensures q1 <= p1 && q2 <= p2
    ensures Shl(q1, after) == p1 && Shl(q2, after) == p2 && before + after == squares
    ensures p1 == 0 && p2 == 0 ==> q1 == 0 && q2 == 0
    ensures p1 > 0 || p2 > 0 ==> q1 % 2 == 1 || q2 % 2 == 1
  {
    q1, q2, before, after := p1, p2, squares, 0;
    while (q1 != 0 || q2 != 0) && q1 % 2 == 0 && q2 % 2 == 0
      invariant q1 <= p1 && q2 <= p2
      invariant Shl(q1, after) == p1 && Shl(q2, after) == p2 && before + after == squares
      invariant after <= bits && q1 < Pow2(bits - after) && q2 < Pow2(bits - after)
      invariant p1 == 0 && p2 == 0 ==> q1 == 0 && q2 == 0
      invariant p1 > 0 || p2 > 0 ==> q1 > 0 || q2 > 0
      decreases q1 + q2
    {
      HalveShifted(q1, after);
      HalveShifted(q2, after);
      q1, q2 := q1 / 2, q2 / 2;
      before, after := before - 1, after + 1;
    }
  }

  lemma HalveShifted(q: nat, n: nat)
    requires q % 2 == 0
    ensures Shl(q / 2, n + 1) == Shl(q, n)
  {
    ShlSum(q / 2, q / 2, n);
  }

  /** One window: shifts the exponents read so far by the bits of the window and
      adds the window. */
  method ApplyWindow<T(!new)>(
    g: Group<T>, x: T, y: T, w: nat, table: array<T>, result: T, firstTime: bool, p1: nat, p2: nat,
    squaresBefore: nat, ghost bits: nat, ghost a: nat, ghost b: nat)
    returns (r: T)
    requires IsMonoid(g) && CommuteAt(g, x, y)
    requires Complete(g, x, y, w, table[..])
    requires p1 < Pow2(w) && p2 < Pow2(w) && p1 < Pow2(bits) && p2 < Pow2(bits)
    requires if firstTime then a == b == 0 && (p1 > 0 || p2 > 0) && squaresBefore == bits - 1
             else result == Lin(g, x, a, y, b) && squaresBefore == bits
    ensures Shl(a, bits) >= 0 && Shl(b, bits) >= 0
    ensures r == Lin(g, x, Shl(a, bits) + p1, y, Shl(b, bits) + p2)
  {
    hide Lin, Shl, Pow2, IsMonoid, Index;
    var q1, q2, before, after := StripTwos(p1, p2, squaresBefore, bits);
    r := result;
    IndexIs(q1, q2, w);
    ShlGrows(a, bits);
    ShlGrows(b, bits);
    ghost var c, d := 0, 0;
    if firstTime {
      assert Entry(g, x, y, w, table[..], q1, q2);
      r := table[Shl(q2, w) + q1];
      ShlZero(before);
      c, d := q1, q2;
    } else {
      r := DoubleTimes(g, x, y, r, before, a, b);
      c, d := Shl(a, before), Shl(b, before);
      if q1 != 0 || q2 != 0 {
        assert Entry(g, x, y, w, table[..], q1, q2);
        LinAdd(g, x, c, q1, y, d, q2);
        r := g.add(r, table[Shl(q2, w) + q1]);
      }
      c, d := c + q1, d + q2;
    }
    r := DoubleTimes(g, x, y, r, after, c, d);
    ShiftedSum(a, before, after, bits, q1, p1);
    ShiftedSum(b, before, after, bits, q2, p2);
  }

  lemma IndexIs(a: nat, b: nat, w: nat)
    ensures Index(a, b, w) == Shl(b, w) + a
  {
  }

  lemma ShiftedSum(a: nat, before: nat, after: nat, bits: nat, q: nat, p: nat)
    requires Shl(q, after) == p
    requires a == 0 || before + after == bits
    ensures Shl(Shl(a, before) + q, after) == Shl(a, bits) + p
  {
    ShlSum(Shl(a, before), q, after);
    ShlShl(a, before, after);
    ShlZero(before);
    ShlZero(after);
    ShlZero(bits);
  }

  /** What is known when the bits from n up have been read: as much of both
      exponents as the result does not hold yet is in the window. */
  ghost predicate ReadSoFar(e: nat, n: nat, held: nat, bits: nat, power: nat) {
    Shr(e, n) == Shl(held, bits) + power && power < Pow2(bits)
  }

  lemma ReadBit(e: nat, i: nat, held: nat, bits: nat, power: nat)
    requires ReadSoFar(e, i + 1, held, bits, power)
    ensures ReadSoFar(e, i, held, bits + 1, 2 * power + Bit(e, i))
  {
    ShrStep(e, i);
  }

  /** CascadeScalarMultiply with a given window width. */
  method CascadeWithWidth<T(!new)>(
    g: Group<T>, x: T, e1: nat, y: T, e2: nat, expLen: nat, w: nat, unset: T)
    returns (result: T)
    requires IsMonoid(g) && CommuteAt(g, x, y)
    requires w >= 1 && expLen >= 1
    requires expLen == if BitCount(e1) >= BitCount(e2) then BitCount(e1) else BitCount(e2)
    ensures result == Lin(g, x, e1, y, e2)
  {
    hide Lin, Shl, Shr, Pow2, IsMonoid, BitCount, Bit, Complete;
    var tableSize := Pow2(w);
    ShlGrows(tableSize, w);
    var table := new T[Shl(tableSize, w)](_ => unset);
    FillTable(g, x, y, w, table);

    result := unset;
    var power1: nat, power2: nat, prevPosition, firstTime := 0, 0, expLen - 1, true;
    var i := expLen - 1;
    ghost var a: nat, b: nat, bits: nat := 0, 0, 0;
    Pow2Even(w);
    TopBit(e1, e2, expLen);
    while i >= 0
      invariant -1 <= i < expLen
      invariant Complete(g, x, y, w, table[..])
      invariant 2 * power1 < tableSize && 2 * power2 < tableSize
      invariant ReadSoFar(e1, i + 1, a, bits, power1) && ReadSoFar(e2, i + 1, b, bits, power2)
      invariant firstTime ==> a == b == 0 && prevPosition == expLen - 1 && bits == expLen - 1 - i
      invariant firstTime && i < expLen - 1 ==> power1 > 0 || power2 > 0
      invariant !firstTime ==> result == Lin(g, x, a, y, b) && prevPosition == i + 1 + bits
      invariant i < 0 ==> !firstTime && bits == 0
    {
      ReadBit(e1, i, a, bits, power1);
      ReadBit(e2, i, b, bits, power2);
      bits := bits + 1;
      power1 := 2 * power1 + Bit(e1, i);
      power2 := 2 * power2 + Bit(e2, i);
      if i == 0 || 2 * power1 >= tableSize || 2 * power2 >= tableSize {
        result := ApplyWindow(g, x, y, w, table, result, firstTime, power1, power2, prevPosition - i, bits, a, b);
        prevPosition, firstTime := i, false;
        power1, power2 := 0, 0;
        a, b, bits := Shr(e1, i), Shr(e2, i), 0;
        NothingRead(e1, i);
        NothingRead(e2, i);
      }
      i := i - 1;
    }
    NothingRead(e1, 0);
    NothingRead(e2, 0);
  }

  lemma NothingRead(e: nat, i: nat)
    ensures ReadSoFar(e, i, Shr(e, i), 0, 0)
    ensures Shr(e, 0) == e
    ensures forall held, power :: ReadSoFar(e, i, held, 0, power) ==> held == Shr(e, i)
  {
  }

  /** The exponents have no bits from expLen up, and one of them has the bit below. */
  lemma TopBit(e1: nat, e2: nat, expLen: nat)
    requires expLen >= 1
    requires expLen == if BitCount(e1) >= BitCount(e2) then BitCount(e1) else BitCount(e2)
    ensures ReadSoFar(e1, expLen, 0, 0, 0) && ReadSoFar(e2, expLen, 0, 0, 0)
    ensures Bit(e1, expLen - 1) == 1 || Bit(e2, expLen - 1) == 1
  {
    Pow2Monotone(BitCount(e1), expLen);
    Pow2Monotone(BitCount(e2), expLen);
    ShrZero(e1, expLen);
    ShrZero(e2, expLen);
    ShrStep(e1, expLen - 1);
    ShrStep(e2, expLen - 1);
    if BitCount(e1) == expLen {
      TopBitSet(e1, expLen);
    } else {
      TopBitSet(e2, expLen);
    }
  }

  lemma TopBitSet(e: nat, n: nat)
    requires n >= 1 && Pow2(n - 1) <= e && Shr(e, n) == 0
    ensures Bit(e, n - 1) == 1
  {
    ShrLow(e, n - 1);
    ShlZero(n - 1);
    ShrStep(e, n - 1);
  }

  /** AbstractGroup::CascadeScalarMultiply.  No inverse is used, so any monoid
      will do, and x and y are the only elements that need to commute.  The
      vector's elements start out as the value of a default-constructed
      Element, here any value at all. */
  method CascadeScalarMultiply<T(!new)>(g: Group<T>, x: T, e1: nat, y: T, e2: nat, unset: T) returns (result: T)
    requires IsMonoid(g) && CommuteAt(g, x, y)
    ensures result == g.add(Smul(g, e1, x), Smul(g, e2, y))
  {
    var expLen := if BitCount(e1) >= BitCount(e2) then BitCount(e1) else BitCount(e2);
    if expLen == 0 {
      Unit(g, g.identity);
      return g.identity;
    }
    var w := if expLen <= 46 then 1 else if expLen <= 260 then 2 else 3;
    result := CascadeWithWidth(g, x, e1, y, e2, expLen, w, unset);
  }
}

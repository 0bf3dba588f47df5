/** GeneralCascadeMultiplication (crypto++/algebra.cpp): the sum of any number
    of scalar multiples, by Euclid's algorithm on the two largest exponents. */
module GeneralCascade {
  import opened Powers
  import opened Groups
  import SimultaneousMultiplication
  import CascadeMultiplication

  /** BaseAndExponent (crypto++/algebra.h), ordered by exponent. */
  datatype Term<T> = Term(base: T, exponent: nat)

  // ----- sums over sequences do not depend on the order

  function Fold<T, U>(g: Group<U>, f: T -> U, s: seq<T>): U {
    if s == [] then g.identity else g.add(f(s[0]), Fold(g, f, s[1..]))
  }

  lemma {:induction false} FoldConcat<T, U(!new)>(g: Group<U>, f: T -> U, s: seq<T>, t: seq<T>)
    requires IsMonoid(g)
    ensures Fold(g, f, s + t) == g.add(Fold(g, f, s), Fold(g, f, t))
  {
    if s == [] {
      assert s + t == t;
      Unit(g, Fold(g, f, t));
    } else {
      assert (s + t)[1..] == s[1..] + t;
      FoldConcat(g, f, s[1..], t);
      Associative(g, f(s[0]), Fold(g, f, s[1..]), Fold(g, f, t));
    }
  }

  lemma FoldOne<T, U(!new)>(g: Group<U>, f: T -> U, x: T)
    requires IsMonoid(g)
    ensures Fold(g, f, [x]) == f(x)
  {
    Unit(g, f(x));
    assert Fold(g, f, [x][1..]) == g.identity;
  }

  /** Any one element can be taken out in front. */
  lemma FoldTakeOut<T, U(!new)>(g: Group<U>, f: T -> U, s: seq<T>, i: nat)
    requires IsMonoid(g) && IsCommutative(g) && i < |s|
    ensures Fold(g, f, s) == g.add(f(s[i]), Fold(g, f, s[..i] + s[i + 1..]))
  {
    var a, b := s[..i], s[i + 1..];
    var x, y, z := f(s[i]), Fold(g, f, a), Fold(g, f, b);
    assert s == a + ([s[i]] + b);
    FoldConcat(g, f, a, [s[i]] + b);
    FoldConcat(g, f, [s[i]], b);
    FoldOne(g, f, s[i]);
    FoldConcat(g, f, a, b);
    Associative(g, x, y, z);
    Associative(g, y, x, z);
    assert CommuteAt(g, x, y);
  }

  lemma {:induction false} FoldPermutation<T, U(!new)>(g: Group<U>, f: T -> U, s: seq<T>, t: seq<T>)
    requires IsMonoid(g) && IsCommutative(g)
    requires multiset(s) == multiset(t)
    ensures Fold(g, f, s) == Fold(g, f, t)
    decreases |s|
  {
    if s == [] {
      assert |multiset(t)| == 0;
    } else {
      assert s[0] in multiset(t);
      var i :| 0 <= i < |t| && t[i] == s[0];
      var t' := t[..i] + t[i + 1..];
      assert s == [s[0]] + s[1..];
      assert t == t[..i] + [t[i]] + t[i + 1..];
      assert multiset(s[1..]) == multiset(s) - multiset{s[0]};
      assert multiset(t') == multiset(t) - multiset{s[0]};
      FoldPermutation(g, f, s[1..], t');
      FoldTakeOut(g, f, t, i);
    }
  }

  function Ends<T>(x: T, middle: seq<T>, z: T): seq<T> {
    [x] + middle + [z]
  }

  lemma FoldEnds<T, U(!new)>(g: Group<U>, f: T -> U, x: T, middle: seq<T>, z: T)
    requires IsMonoid(g) && IsCommutative(g)
    ensures Fold(g, f, Ends(x, middle, z)) == g.add(g.add(f(x), f(z)), Fold(g, f, middle))
  {
    var m := Fold(g, f, middle);
    FoldConcat(g, f, [x] + middle, [z]);
    FoldConcat(g, f, [x], middle);
    FoldOne(g, f, x);
    FoldOne(g, f, z);
    Associative(g, f(x), m, f(z));
    Associative(g, f(x), f(z), m);
    assert CommuteAt(g, m, f(z));
  }

  // ----- the two sums of the algorithm

  function Product<T>(g: Group<T>): Term<T> -> T {
    (t: Term<T>) => Times(g, t.exponent, t.base)
  }

  /** What the cascade computes. */
  function Sum<T>(g: Group<T>, s: seq<Term<T>>): T {
    Fold(g, Product(g), s)
  }

  function Integers(): Group<int> {
    Group((a, b) => a + b, a => -a, 0)
  }

  function Exponent<T>(): Term<T> -> int {
    (t: Term<T>) => t.exponent
  }

  /** The total of the exponents, which every step lowers. */
  function Total<T>(s: seq<Term<T>>): int {
    Fold(Integers(), Exponent<T>(), s)
  }

  lemma IntegersAreCommutative()
    ensures IsMonoid(Integers()) && IsCommutative(Integers())
  {
    assert forall x, y, z :: AssociativeAt(Integers(), x, y, z);
    assert forall x :: UnitAt(Integers(), x);
    assert forall x, y :: CommuteAt(Integers(), x, y);
  }

  lemma {:induction false} TotalNonNegative<T>(s: seq<Term<T>>)
    ensures Total(s) >= 0
  {
    if s != [] {
      TotalNonNegative(s[1..]);
    }
  }

  /** One quotient step keeps the sum and lowers the total. */
  lemma QuotientStep<T(!new)>(g: Group<T>, first: Term<T>, middle: seq<Term<T>>, last: Term<T>, q: nat, r: nat)
    requires IsMonoid(g) && IsCommutative(g)
    requires last.exponent == q * first.exponent + r && r < first.exponent <= last.exponent
    ensures var s := Ends(first, middle, last);
      var s' := Ends(Term(g.add(first.base, Times(g, q, last.base)), first.exponent), middle, Term(last.base, r));
      Sum(g, s') == Sum(g, s) && Total(s') < Total(s)
  {
    var b := first.exponent;
    var moved := Term(g.add(first.base, Times(g, q, last.base)), b);
    var left := Term(last.base, r);
    var f := Product(g);
    FoldEnds(g, f, first, middle, last);
    FoldEnds(g, f, moved, middle, left);
    var B, L, R := Times(g, b, first.base), Times(g, b * q, last.base), Times(g, r, last.base);
    assert f(moved) == g.add(B, L) by {
      assert CommuteAt(g, first.base, Times(g, q, last.base));
      TimesSum(g, b, first.base, Times(g, q, last.base));
      TimesTimes(g, b, q, last.base);
    }
    assert f(last) == g.add(L, R) by {
      assert b * q == q * b;
      TimesAdd(g, b * q, r, last.base);
    }
    Associative(g, B, L, R);
    IntegersAreCommutative();
    FoldEnds(Integers(), Exponent<T>(), first, middle, last);
    FoldEnds(Integers(), Exponent<T>(), moved, middle, left);
  }

  lemma {:induction false} ZeroExponents<T(!new)>(g: Group<T>, s: seq<Term<T>>)
    requires IsMonoid(g) && forall t <- s :: t.exponent == 0
    ensures Sum(g, s) == g.identity
  {
    if s != [] {
      ZeroExponents(g, s[1..]);
      assert s[0] in s;
      Unit(g, g.identity);
    }
  }

  // ----- the heap functions of the standard library, by contract

  ghost predicate AtMostParent<T>(s: seq<Term<T>>, i: int) {
    1 <= i < |s| ==> s[i].exponent <= s[(i - 1) / 2].exponent
  }

  ghost predicate IsHeap<T>(s: seq<Term<T>>) {
    forall i :: AtMostParent(s, i)
  }

  lemma {:induction false} HeapTop<T>(s: seq<Term<T>>, i: nat)
    requires IsHeap(s) && i < |s|
    ensures s[0].exponent >= s[i].exponent
  {
    if i > 0 {
      assert AtMostParent(s, i);
      HeapTop(s, (i - 1) / 2);
    }
  }

  /** make_heap, push_heap and pop_heap as functions of the range's contents. */
  datatype HeapLibrary<!T> = HeapLibrary(make: seq<T> -> seq<T>, push: seq<T> -> seq<T>, pop: seq<T> -> seq<T>)

  ghost predicate MakesHeap<T>(h: HeapLibrary<Term<T>>, s: seq<Term<T>>) {
    multiset(h.make(s)) == multiset(s) && IsHeap(h.make(s))
  }

  ghost predicate PushesHeap<T>(h: HeapLibrary<Term<T>>, s: seq<Term<T>>) {
    |s| >= 1 && IsHeap(s[..|s| - 1]) ==> multiset(h.push(s)) == multiset(s) && IsHeap(h.push(s))
  }

  ghost predicate LargestLast<T>(s: seq<Term<T>>) {
    && |s| >= 1 && IsHeap(s[..|s| - 1])
    && forall i :: 0 <= i < |s| ==> s[i].exponent <= s[|s| - 1].exponent
  }

  ghost predicate PopsHeap<T>(h: HeapLibrary<Term<T>>, s: seq<Term<T>>) {
    |s| >= 1 && IsHeap(s) ==> multiset(h.pop(s)) == multiset(s) && LargestLast(h.pop(s))
  }

  ghost predicate IsHeapLibrary<T(!new)>(h: HeapLibrary<Term<T>>) {
    forall s :: MakesHeap(h, s) && PushesHeap(h, s) && PopsHeap(h, s)
  }

  // ----- such a library exists: keep the range in descending order

  ghost predicate Descending<T>(s: seq<Term<T>>) {
    forall i, j :: 0 <= i < j < |s| ==> s[i].exponent >= s[j].exponent
  }

  function Insert<T>(t: Term<T>, s: seq<Term<T>>): seq<Term<T>> {
    if s == [] || t.exponent >= s[0].exponent then [t] + s else [s[0]] + Insert(t, s[1..])
  }

  function Sort<T>(s: seq<Term<T>>): seq<Term<T>> {
    if s == [] then [] else Insert(s[0], Sort(s[1..]))
  }

  lemma {:induction false} InsertDescending<T>(t: Term<T>, s: seq<Term<T>>)
    requires Descending(s)
    ensures Descending(Insert(t, s)) && multiset(Insert(t, s)) == multiset{t} + multiset(s)
  {
    if s != [] {
      assert s == [s[0]] + s[1..];
      if t.exponent < s[0].exponent {
        hide Descending;
        TailDescending(s);
        InsertDescending(t, s[1..]);
        var more := Insert(t, s[1..]);
        forall y <- more ensures s[0].exponent >= y.exponent {
          assert y in multiset(more);
        }
        ConsDescending(s[0], more);
      }
    }
  }

  lemma TailDescending<T>(s: seq<Term<T>>)
    requires Descending(s) && s != []
    ensures Descending(s[1..]) && forall y <- s[1..] :: s[0].exponent >= y.exponent
  {
  }

  lemma ConsDescending<T>(x: Term<T>, s: seq<Term<T>>)
    requires Descending(s) && forall y <- s :: x.exponent >= y.exponent
    ensures Descending([x] + s)
  {
  }

  lemma {:induction false} SortDescending<T>(s: seq<Term<T>>)
    ensures Descending(Sort(s)) && multiset(Sort(s)) == multiset(s)
  {
    if s != [] {
      SortDescending(s[1..]);
      InsertDescending(s[0], Sort(s[1..]));
      assert s == [s[0]] + s[1..];
    }
  }

  function SortedLibrary<T>(): HeapLibrary<Term<T>> {
    HeapLibrary(s => Sort(s), s => Sort(s), s => if Sort(s) == [] then [] else Sort(s)[1..] + [Sort(s)[0]])
  }

  lemma SortedIsHeapLibrary<T(!new)>()
    ensures IsHeapLibrary(SortedLibrary<T>())
  {
    var h := SortedLibrary<T>();
    forall s ensures MakesHeap(h, s) && PushesHeap(h, s) && PopsHeap(h, s) {
      hide IsHeap, LargestLast, Sort;
      SortDescending(s);
      DescendingHeap(Sort(s));
      SameSize(Sort(s), s);
      if s != [] {
        RotatedDescending(Sort(s));
      }
    }
  }

  lemma DescendingHeap<T>(s: seq<Term<T>>)
    requires Descending(s)
    ensures IsHeap(s)
  {
  }

  lemma RotatedDescending<T>(s: seq<Term<T>>)
    requires Descending(s) && s != []
    ensures LargestLast(s[1..] + [s[0]]) && multiset(s[1..] + [s[0]]) == multiset(s)
  {
    hide IsHeap;
    var p := s[1..] + [s[0]];
    assert p[..|p| - 1] == s[1..];
    DescendingHeap(s[1..]);
    assert s == [s[0]] + s[1..];
  }

  lemma SameSize<T>(s: seq<T>, t: seq<T>)
    requires multiset(s) == multiset(t)
    ensures |s| == |t|
  {
    assert |multiset(s)| == |s|;
    assert |multiset(t)| == |t|;
  }

  /** push_heap, or make_heap, followed by pop_heap. */
  lemma AfterHeap<T(!new)>(g: Group<T>, h: HeapLibrary<Term<T>>, s: seq<Term<T>>, heap: seq<Term<T>>)
    requires IsMonoid(g) && IsCommutative(g) && IsHeapLibrary(h)
    requires |s| >= 1 && multiset(heap) == multiset(s) && IsHeap(heap)
    ensures var t := h.pop(heap);
      |t| == |s| && LargestLast(t) && Sum(g, t) == Sum(g, s) && Total(t) == Total(s)
  {
    SameSize(heap, s);
    assert PopsHeap(h, heap);
    var t := h.pop(heap);
    SameSize(t, s);
    FoldPermutation(g, Product(g), t, s);
    IntegersAreCommutative();
    FoldPermutation(Integers(), Exponent<T>(), t, s);
  }

  // ----- the algorithm

  method Store<T>(a: array<T>, s: seq<T>)
    requires |s| == a.Length
    modifies a
    ensures a[..] == s
  {
    for i := 0 to a.Length
      invariant a[..i] == s[..i]
    {
      a[i] := s[i];
    }
  }

  /** The loop's body up to the heap calls, on the range's contents. */
  method StepRange<T(!new)>(g: Group<T>, inversionIsFast: bool, a: array<Term<T>>, wordBits: nat)
    requires IsMonoid(g) && IsCommutative(g) && (inversionIsFast ==> IsGroup(g)) && wordBits >= 1
    requires a.Length >= 2 && LargestLast(a[..]) && a[0].exponent != 0
    modifies a
    ensures IsHeap(a[..a.Length - 1])
    ensures Sum(g, a[..]) == Sum(g, old(a[..])) && Total(a[..]) < Total(old(a[..]))
  {
    hide IsMonoid, IsCommutative, IsGroup, Sum, Total, Times, Smul;
    var last := a.Length - 1;
    var first, largest := a[0], a[last];
    var t := largest.exponent;
    var q, r := t / first.exponent, t % first.exponent;
    QuotientNonNegative(t, first.exponent);
    ghost var middle := a[1..last];
    assert a[..] == Ends(first, middle, largest);
    var multiple := largest.base;
    if q != 1 {
      multiple := SimultaneousMultiplication.ScalarMultiply(g, inversionIsFast, largest.base, q, wordBits);
    }
    MultipleIs(g, q, largest.base);
    a[last] := Term(largest.base, r);
    a[0] := Term(g.add(first.base, multiple), first.exponent);
    QuotientStep(g, first, middle, largest, q, r);
    assert a[..] == Ends(a[0], middle, a[last]);
    SameOrder(old(a[..a.Length - 1]), a[..last]);
  }

  lemma SameOrder<T>(s: seq<Term<T>>, t: seq<Term<T>>)
    requires IsHeap(s) && |s| == |t| && forall i :: 0 <= i < |s| ==> s[i].exponent == t[i].exponent
    ensures IsHeap(t)
  {
    forall i
      ensures AtMostParent(t, i)
    {
      assert AtMostParent(s, i);
    }
  }

  lemma MultipleIs<T(!new)>(g: Group<T>, q: nat, x: T)
    requires IsMonoid(g)
    ensures Smul(g, q, x) == Times(g, q, x)
    ensures q == 1 ==> x == Times(g, q, x)
  {
    TimesOne(g, x);
  }

  /** GeneralCascadeMultiplication over the non-empty range a. */
  method GeneralCascadeMultiplication<T(!new)>(
    g: Group<T>, inversionIsFast: bool, h: HeapLibrary<Term<T>>, a: array<Term<T>>, wordBits: nat, unset: T)
    returns (result: T)
    requires IsMonoid(g) && IsCommutative(g) && (inversionIsFast ==> IsGroup(g)) && wordBits >= 1
    requires IsHeapLibrary(h)
    requires a.Length >= 1
    modifies a
    ensures result == Sum(g, old(a[..]))
  {
    hide IsMonoid, IsGroup, Smul, IsHeap, Sum, Total;
    if a.Length == 1 {
      result := SimultaneousMultiplication.ScalarMultiply(g, inversionIsFast, a[0].base, a[0].exponent, wordBits);
      SumOfOne(g, a[0]);
      assert a[..] == [a[0]];
    } else if a.Length == 2 {
      assert CommuteAt(g, a[0].base, a[1].base);
      result := CascadeMultiplication.CascadeScalarMultiply(g, a[0].base, a[0].exponent, a[1].base, a[1].exponent,
        unset);
      SumOfTwo(g, a[0], a[1]);
      assert a[..] == [a[0], a[1]];
    } else {
      var last := a.Length - 1;
      assert MakesHeap(h, a[..]);
      AfterHeap(g, h, a[..], h.make(a[..]));
      Store(a, h.pop(h.make(a[..])));
      while a[0].exponent != 0
        invariant LargestLast(a[..])
        invariant Sum(g, a[..]) == Sum(g, old(a[..]))
        decreases Total(a[..])
      {
        TotalNonNegative(a[..]);
        StepRange(g, inversionIsFast, a, wordBits);
        assert PushesHeap(h, a[..]);
        AfterHeap(g, h, a[..], h.push(a[..]));
        TotalNonNegative(a[..]);
        Store(a, h.pop(h.push(a[..])));
      }
      result := SimultaneousMultiplication.ScalarMultiply(g, inversionIsFast, a[last].base, a[last].exponent, wordBits);
      OnlyLast(g, a[..]);
    }
  }

  lemma SumOfOne<T(!new)>(g: Group<T>, t: Term<T>)
    requires IsMonoid(g)
    ensures Sum(g, [t]) == Smul(g, t.exponent, t.base)
  {
    FoldOne(g, Product(g), t);
  }

  lemma SumOfTwo<T(!new)>(g: Group<T>, t: Term<T>, u: Term<T>)
    requires IsMonoid(g)
    ensures Sum(g, [t, u]) == g.add(Smul(g, t.exponent, t.base), Smul(g, u.exponent, u.base))
  {
    assert [t, u][1..] == [u];
    FoldOne(g, Product(g), u);
  }

  /** When the largest of the others is zero, the last term is the sum. */
  lemma OnlyLast<T(!new)>(g: Group<T>, s: seq<Term<T>>)
    requires IsMonoid(g) && |s| >= 2 && LargestLast(s) && s[0].exponent == 0
    ensures Sum(g, s) == Smul(g, s[|s| - 1].exponent, s[|s| - 1].base)
  {
    var front, last := s[..|s| - 1], s[|s| - 1];
    forall i | 0 <= i < |front|
      ensures front[i].exponent == 0
    {
      HeapTop(front, i);
    }
    ZeroExponents(g, front);
    assert s == front + [last];
    FoldConcat(g, Product(g), front, [last]);
    FoldOne(g, Product(g), last);
    Unit(g, Product(g)(last));
  }
}

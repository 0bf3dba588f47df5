/** AbstractGroup::SimultaneousMultiply and the wrappers that call it
    (crypto++/algebra.cpp): many scalar multiples of one base, sharing the
    doublings, with one vector of buckets for every exponent.  Every group
    element is tracked by the integer it is a multiple by. */
module SimultaneousMultiplication {
  import opened Powers
  import opened Groups
  import opened WindowSliders

  // ----- the integers that the buckets stand for

  /** c[j] + c[j+1] + ... */
  function SuffixSum(c: seq<int>, j: nat): int
    requires j <= |c|
    decreases |c| - j
  {
    if j == |c| then 0 else c[j] + SuffixSum(c, j + 1)
  }

  /** SuffixSum(c, j) + SuffixSum(c, j+1) + ... */
  function SuffixTotal(c: seq<int>, j: nat): int
    requires j <= |c|
    decreases |c| - j
  {
    if j == |c| then 0 else SuffixSum(c, j) + SuffixTotal(c, j + 1)
  }

  /** c[0] + 3 c[1] + 5 c[2] + ..., in the order the final pass adds it up;
      OddWeightedAdd shows the weights. */
  function OddWeighted(c: seq<int>): int
    requires |c| >= 1
  {
    2 * SuffixTotal(c, 1) + SuffixSum(c, 0)
  }

  lemma {:induction false} SuffixSumAdd(c: seq<int>, j: nat, delta: int, k: nat)
    requires j < |c| && k <= |c|
    ensures SuffixSum(c[j := c[j] + delta], k) == SuffixSum(c, k) + if k <= j then delta else 0
    decreases |c| - k
  {
    if k < |c| {
      SuffixSumAdd(c, j, delta, k + 1);
    }
  }

  lemma {:induction false} SuffixTotalAdd(c: seq<int>, j: nat, delta: int, k: nat)
    requires j < |c| && k <= |c|
    ensures SuffixTotal(c[j := c[j] + delta], k)
         == SuffixTotal(c, k) + if k <= j then (j - k + 1) * delta else 0
    decreases |c| - k
  {
    if k < |c| {
      SuffixSumAdd(c, j, delta, k);
      SuffixTotalAdd(c, j, delta, k + 1);
      assert (j - k + 1) * delta == (j - (k + 1) + 1) * delta + delta;
    }
  }

  /** Bucket j has weight 2j + 1. */
  lemma OddWeightedAdd(c: seq<int>, j: nat, delta: int)
    requires j < |c|
    ensures OddWeighted(c[j := c[j] + delta]) == OddWeighted(c) + (2 * j + 1) * delta
  {
    SuffixTotalAdd(c, j, delta, 1);
    SuffixSumAdd(c, j, delta, 0);
    assert (2 * j + 1) * delta == 2 * (j * delta) + delta;
  }

  lemma {:induction false} AllZero(c: seq<int>, j: nat)
    requires j <= |c| && forall i :: 0 <= i < |c| ==> c[i] == 0
    ensures SuffixSum(c, j) == 0 && SuffixTotal(c, j) == 0
    decreases |c| - j
  {
    if j < |c| {
      AllZero(c, j + 1);
    }
  }

  // ----- facts about digit strings, one digit at a time

  lemma {:induction false} DigitSumSnoc(ds: seq<Digit>, d: Digit)
    ensures DigitSum(ds + [d]) == DigitSum(ds) + Shl(d.value, d.position)
  {
    if ds == [] {
      assert (ds + [d])[1..] == [];
    } else {
      DigitSumSnoc(ds[1..], d);
      assert (ds + [d])[1..] == ds[1..] + [d];
    }
  }

  lemma {:induction false} WellSpacedAt(ds: seq<Digit>, w: nat, gap: nat, from: nat, k: nat)
    requires WellSpaced(ds, w, gap, from) && k < |ds|
    ensures ds[k].value % 2 == 1 && -Pow2(w) < ds[k].value < Pow2(w)
    ensures k + 1 < |ds| ==> ds[k + 1].position >= ds[k].position + gap
  {
    if k > 0 {
      WellSpacedAt(ds[1..], w, gap, ds[0].position + gap, k - 1);
    }
  }

  function MaxPosition(ds: seq<Digit>): (m: nat)
    ensures forall d <- ds :: d.position <= m
  {
    if ds == [] then
      0
    else
      var m := MaxPosition(ds[1..]);
      assert forall d <- ds :: d == ds[0] || d in ds[1..];
      if ds[0].position > m then ds[0].position else m
  }

  /** What the recoding says about the k-th digit of an exponent. */
  lemma RecodedDigit(e: nat, w: nat, fastNegate: bool, k: nat)
    requires w >= 1 && k < |Recode(e, 0, w, fastNegate)|
    ensures var ds := Recode(e, 0, w, fastNegate);
      && ds[k].value % 2 == 1 && -Pow2(w) < ds[k].value < Pow2(w)
      && (!fastNegate ==> ds[k].value > 0)
      && ds[k].position <= MaxPosition(ds)
      && (k + 1 < |ds| ==> ds[k].position < ds[k + 1].position)
  {
    var ds := Recode(e, 0, w, fastNegate);
    RecodeWellSpaced(e, 0, w, fastNegate, 0);
    WellSpacedAt(ds, w, if fastNegate then w + 1 else w, 0, k);
    assert ds[k] in ds;
  }

  // ----- one exponent: its slider and its buckets

  /** The digits already added to a bucket: all but the one on show. */
  ghost function Processed(s: WindowSlider): seq<Digit>
    requires s.Valid() && !s.firstTime
    reads s
  {
    if s.finished then s.emitted else s.emitted[..|s.emitted| - 1]
  }

  ghost predicate Holds<T(!new)>(g: Group<T>, base: T, elements: seq<T>, c: seq<int>) {
    |elements| == |c| && forall j :: 0 <= j < |c| ==> Scalar(g, c[j]) && elements[j] == Smul(g, c[j], base)
  }

  ghost predicate Consistent<T(!new)>(
    g: Group<T>, base: T, fast: bool, e: nat, s: WindowSlider, buckets: array<T>, c: seq<int>)
    reads s, buckets
  {
    && s.Valid() && !s.firstTime && s.original == e && s.fastNegate == fast
    && |c| == buckets.Length == Pow2(s.windowSize - 1)
    && Holds(g, base, buckets[..], c)
    && OddWeighted(c) == DigitSum(Processed(s))
  }

  /** Sets up one exponent: the first digit is on show and every bucket is the
      identity. */
  method StartExponent<T(!new)>(g: Group<T>, fast: bool, base: T, wordBits: nat, e: nat, windowSizeIn: nat)
    returns (s: WindowSlider, buckets: array<T>, ghost c: seq<int>)
    requires IsMonoid(g) && (fast ==> IsGroup(g)) && wordBits >= 1
    ensures fresh(s) && fresh(buckets)
    ensures Consistent(g, base, fast, e, s, buckets, c)
    ensures s.windowSize == if windowSizeIn == 0 then DefaultWindow(BitCount(e)) else windowSizeIn
  {
    hide Shl, Shr, Low, Pow2, Recode, DefaultWindow, BitCount, IsMonoid, IsGroup, Holds, OddWeighted;
    s := new WindowSlider(wordBits, e, fast, windowSizeIn);
    s.FindNextWindow();
    buckets := new T[Pow2(s.windowSize - 1)](_ => g.identity);
    c := seq(buckets.Length, _ => 0);
    EmptyBuckets(g, base, buckets[..], c);
    assert Processed(s) == [];
  }

  lemma EmptyBuckets<T(!new)>(g: Group<T>, base: T, elements: seq<T>, c: seq<int>)
    requires IsMonoid(g) && |elements| == |c| >= 1
    requires forall j :: 0 <= j < |c| ==> elements[j] == g.identity && c[j] == 0
    ensures Holds(g, base, elements, c) && OddWeighted(c) == 0
  {
    AllZero(c, 1);
    AllZero(c, 0);
  }

  /** The body of the inner loop for an exponent whose digit is at the current
      bit position: adds the current power of the base to its bucket and moves
      the slider on. */
  method AddWindow<T(!new)>(
    g: Group<T>, base: T, fast: bool, ghost e: nat, s: WindowSlider, buckets: array<T>, ghost c: seq<int>,
    position: nat, power: T)
    returns (ghost c': seq<int>)
    requires IsMonoid(g) && (fast ==> IsGroup(g))
    requires Consistent(g, base, fast, e, s, buckets, c)
    requires !s.finished && s.windowBegin == position && power == Smul(g, Pow2(position), base)
    modifies s, buckets
    ensures Consistent(g, base, fast, e, s, buckets, c')
    ensures s.windowSize == old(s.windowSize)
    ensures !s.finished ==> position < s.windowBegin
  {
    hide Shl, Shr, Low, Pow2, Recode, Smul, MaxPosition, OddWeighted, DigitSum, Holds, IsMonoid, IsGroup, Scalar;
    CurrentDigit(s);
    var j := s.expWindow / 2;
    c' := AddToBucket(g, base, buckets, c, j, s.negateNext, Pow2(position), power);
    DigitAdds(Processed(s), s.Current(), c, j, c'[j] - c[j]);
    ghost var contents := buckets[..];
    s.FindNextWindow();
    assert buckets[..] == contents;
    if !s.finished {
      LaterDigit(s);
    }
  }

  /** The digit on show belongs to bucket expWindow / 2. */
  lemma CurrentDigit(s: WindowSlider)
    requires s.Valid() && !s.firstTime && !s.finished
    ensures s.expWindow % 2 == 1 && s.expWindow / 2 < Pow2(s.windowSize - 1)
    ensures s.negateNext ==> s.fastNegate
    ensures Processed(s) + [s.Current()] == s.emitted
  {
    hide Shl, Shr, Low, Recode, MaxPosition;
    RecodedDigit(s.original, s.windowSize, s.fastNegate, |s.emitted| - 1);
  }

  /** The digit on show stands above the one before it. */
  lemma LaterDigit(s: WindowSlider)
    requires s.Valid() && !s.firstTime && !s.finished && |s.emitted| >= 2
    ensures s.emitted[|s.emitted| - 2].position < s.windowBegin
  {
    hide Shl, Shr, Low, Recode, MaxPosition;
    RecodedDigit(s.original, s.windowSize, s.fastNegate, |s.emitted| - 2);
  }

  method AddToBucket<T(!new)>(
    g: Group<T>, base: T, buckets: array<T>, ghost c: seq<int>, j: nat, negate: bool, ghost scalar: nat, power: T)
    returns (ghost c': seq<int>)
    requires IsMonoid(g) && (negate ==> IsGroup(g))
    requires Holds(g, base, buckets[..], c) && j < buckets.Length && power == Smul(g, scalar, base)
    modifies buckets
    ensures c' == c[j := c[j] + if negate then -(scalar as int) else scalar]
    ensures Holds(g, base, buckets[..], c')
  {
    hide Smul;
    ghost var delta: int := if negate then -(scalar as int) else scalar;
    if negate {
      SmulNegate(g, scalar, base);
      buckets[j] := g.add(buckets[j], g.inverse(power));
    } else {
      buckets[j] := g.add(buckets[j], power);
    }
    SmulAdd(g, c[j], delta, base);
    c' := c[j := c[j] + delta];
  }

  /** A digit of value +-(2j + 1) is +-2^position in bucket j. */
  lemma DigitAdds(ds: seq<Digit>, d: Digit, c: seq<int>, j: nat, delta: int)
    requires j < |c| && OddWeighted(c) == DigitSum(ds)
    requires || (d.value == 2 * j + 1 && delta == Pow2(d.position))
             || (d.value == -(2 * j + 1) && delta == -Pow2(d.position))
    ensures OddWeighted(c[j := c[j] + delta]) == DigitSum(ds + [d])
  {
    hide OddWeighted, DigitSum, Shl, Pow2;
    ShlIsProduct(d.value, d.position);
    OddWeightedAdd(c, j, delta);
    DigitSumSnoc(ds, d);
  }

  /** The final pass over one exponent's buckets. */
  method CollectBuckets<T(!new)>(g: Group<T>, base: T, buckets: array<T>, ghost c: seq<int>) returns (r: T)
    requires IsMonoid(g)
    requires buckets.Length >= 1 && Holds(g, base, buckets[..], c)
    requires (forall k :: 0 <= k < |c| ==> c[k] >= 0) || IsGroup(g)
    modifies buckets
    ensures r == Smul(g, OddWeighted(c), base)
  {
    hide Smul;
    var n := buckets.Length;
    r := buckets[n - 1];
    Suffixes(g, c);
    assert SuffixSum(c, n - 1) == c[n - 1];
    if n > 1 {
      var j := n - 2;
      while j >= 1
        invariant 0 <= j <= n - 2
        invariant forall i :: 0 <= i <= j ==> buckets[i] == Smul(g, c[i], base)
        invariant buckets[j + 1] == Smul(g, SuffixSum(c, j + 1), base)
        invariant r == Smul(g, SuffixTotal(c, j + 1), base)
      {
        SmulAdd(g, c[j], SuffixSum(c, j + 1), base);
        buckets[j] := g.add(buckets[j], buckets[j + 1]);
        SmulAdd(g, SuffixTotal(c, j + 1), SuffixSum(c, j), base);
        r := g.add(r, buckets[j]);
        j := j - 1;
      }
      SmulAdd(g, c[0], SuffixSum(c, 1), base);
      buckets[0] := g.add(buckets[0], buckets[1]);
      SmulDouble(g, SuffixTotal(c, 1), base);
      SmulAdd(g, 2 * SuffixTotal(c, 1), SuffixSum(c, 0), base);
      r := g.add(g.add(r, r), buckets[0]);
    }
  }

  /** Sums of usable scalars are usable. */
  lemma Suffixes<T(!new)>(g: Group<T>, c: seq<int>)
    requires IsMonoid(g)
    requires (forall k :: 0 <= k < |c| ==> c[k] >= 0) || IsGroup(g)
    ensures forall k :: 0 <= k <= |c| ==> Scalar(g, SuffixSum(c, k)) && Scalar(g, SuffixTotal(c, k))
  {
    if !IsGroup(g) {
      forall k | 0 <= k <= |c|
        ensures SuffixSum(c, k) >= 0 && SuffixTotal(c, k) >= 0
      {
        SuffixesNonNegative(c, k);
      }
    }
  }

  lemma {:induction false} SuffixesNonNegative(c: seq<int>, j: nat)
    requires j <= |c| && forall i :: 0 <= i < |c| ==> c[i] >= 0
    ensures SuffixSum(c, j) >= 0 && SuffixTotal(c, j) >= 0
    decreases |c| - j
  {
    if j < |c| {
      SuffixesNonNegative(c, j + 1);
    }
  }

  // ----- all exponents

  ghost predicate Distinct<T>(s: seq<T>) {
    forall i, j :: 0 <= i < j < |s| ==> s[i] != s[j]
  }

  /** Exponent i is consistent, with its slider at this position or later. */
  ghost predicate Waiting<T(!new)>(
    g: Group<T>, base: T, fast: bool, e: nat, s: WindowSlider, w: nat, buckets: array<T>, c: seq<int>, position: nat)
    reads s, buckets
  {
    && Consistent(g, base, fast, e, s, buckets, c)
    && s.windowSize == w >= 1
    && (!s.finished ==> position <= s.windowBegin)
  }

  /** The exponents below upTo are done with the current bit position and the
      others are not. */
  ghost predicate AllWaiting<T(!new)>(
    g: Group<T>, base: T, fast: bool, exps: seq<nat>, sliders: seq<WindowSlider>, ws: seq<nat>,
    buckets: seq<array<T>>, cs: seq<seq<int>>, upTo: nat, position: nat)
    reads sliders, buckets
  {
    && |exps| == |sliders| == |ws| == |buckets| == |cs|
    && Distinct(sliders) && Distinct(buckets)
    && forall i :: 0 <= i < |exps| ==>
         Waiting(g, base, fast, exps[i], sliders[i], ws[i], buckets[i], cs[i],
           if i < upTo then position + 1 else position)
  }

  /** Every window of every exponent is below the bound. */
  ghost predicate Bounded(exps: seq<nat>, ws: seq<nat>, fast: bool, bound: nat) {
    && |exps| == |ws|
    && forall i :: 0 <= i < |ws| ==> ws[i] >= 1 && MaxPosition(Recode(exps[i], 0, ws[i], fast)) < bound
  }

  method StartAll<T(!new)>(g: Group<T>, fast: bool, base: T, wordBits: nat, exps: seq<nat>, windowSizeIn: nat)
    returns (sliders: seq<WindowSlider>, ghost ws: seq<nat>, buckets: seq<array<T>>, ghost cs: seq<seq<int>>,
      ghost bound: nat)
    requires IsMonoid(g) && (fast ==> IsGroup(g)) && wordBits >= 1
    ensures AllWaiting(g, base, fast, exps, sliders, ws, buckets, cs, 0, 0)
    ensures Bounded(exps, ws, fast, bound)
    ensures fresh(sliders) && fresh(buckets)
  {
    hide Recode, IsMonoid, IsGroup, Consistent, DefaultWindow, BitCount;
    sliders, ws, buckets, cs, bound := [], [], [], [], 0;
    for i := 0 to |exps|
      invariant |sliders| == i
      invariant AllWaiting(g, base, fast, exps[..i], sliders, ws, buckets, cs, 0, 0)
      invariant Bounded(exps[..i], ws, fast, bound)
      invariant fresh(sliders) && fresh(buckets)
    {
      var s, b, c := StartExponent(g, fast, base, wordBits, exps[i], windowSizeIn);
      sliders, ws, buckets, cs := sliders + [s], ws + [s.windowSize], buckets + [b], cs + [c];
      ghost var last := MaxPosition(Recode(exps[i], 0, s.windowSize, fast));
      bound := if bound <= last then last + 1 else bound;
      assert exps[..i + 1] == exps[..i] + [exps[i]];
    }
    assert exps[..|exps|] == exps;
  }

  /** The inner loop: one bit position, all exponents. */
  method ServePosition<T(!new)>(
    g: Group<T>, base: T, fast: bool, ghost exps: seq<nat>, sliders: seq<WindowSlider>, ghost ws: seq<nat>,
    buckets: seq<array<T>>, ghost cs0: seq<seq<int>>, position: nat, power: T)
    returns (notDone: bool, ghost cs: seq<seq<int>>)
    requires IsMonoid(g) && (fast ==> IsGroup(g))
    requires AllWaiting(g, base, fast, exps, sliders, ws, buckets, cs0, 0, position)
    requires power == Smul(g, Pow2(position), base)
    modifies sliders, buckets
    ensures AllWaiting(g, base, fast, exps, sliders, ws, buckets, cs, |exps|, position)
    ensures notDone <==> exists i :: 0 <= i < |exps| && !sliders[i].finished
  {
    hide Pow2, Smul, IsMonoid, IsGroup, Waiting;
    notDone, cs := false, cs0;
    for i := 0 to |sliders|
      invariant AllWaiting(g, base, fast, exps, sliders, ws, buckets, cs, i, position)
      invariant notDone <==> exists k :: 0 <= k < i && !sliders[k].finished
    {
      ghost var c := ServeOne(g, base, fast, exps[i], sliders[i], ws[i], buckets[i], cs[i], position, power);
      cs := cs[i := c];
      notDone := notDone || !sliders[i].finished;
    }
  }

  /** One exponent at the current position: its window, if it begins here, goes
      into a bucket. */
  method ServeOne<T(!new)>(
    g: Group<T>, base: T, fast: bool, ghost e: nat, s: WindowSlider, ghost w: nat, buckets: array<T>, ghost c: seq<int>,
    position: nat, power: T)
    returns (ghost c': seq<int>)
    requires IsMonoid(g) && (fast ==> IsGroup(g))
    requires Waiting(g, base, fast, e, s, w, buckets, c, position) && power == Smul(g, Pow2(position), base)
    modifies s, buckets
    ensures Waiting(g, base, fast, e, s, w, buckets, c', position + 1)
  {
    hide Pow2, Smul, IsMonoid, IsGroup, Consistent;
    c' := c;
    if !s.finished && position == s.windowBegin {
      c' := AddWindow(g, base, fast, e, s, buckets, c, position, power);
    }
  }

  /** A position still waited for is below the bound. */
  lemma WaitingBelowBound<T(!new)>(
    g: Group<T>, base: T, fast: bool, exps: seq<nat>, sliders: seq<WindowSlider>, ws: seq<nat>,
    buckets: seq<array<T>>, cs: seq<seq<int>>, position: nat, bound: nat, i: nat)
    requires AllWaiting(g, base, fast, exps, sliders, ws, buckets, cs, |exps|, position)
    requires Bounded(exps, ws, fast, bound)
    requires i < |exps| && !sliders[i].finished
    ensures position + 1 < bound
  {
    hide Recode, MaxPosition, IsMonoid, IsGroup, Holds, OddWeighted;
    var s := sliders[i];
    assert Waiting(g, base, fast, exps[i], s, ws[i], buckets[i], cs[i], position + 1);
    RecodedDigit(exps[i], ws[i], fast, |s.emitted| - 1);
    assert s.emitted[|s.emitted| - 1] == s.Current();
  }

  /** When an exponent is finished its buckets add up to it. */
  lemma FinishedSum<T(!new)>(
    g: Group<T>, base: T, fast: bool, e: nat, s: WindowSlider, buckets: array<T>, c: seq<int>)
    requires Consistent(g, base, fast, e, s, buckets, c) && s.finished
    ensures OddWeighted(c) == e
  {
    hide Recode, Holds, OddWeighted;
    RecodeExact(e, 0, s.windowSize, fast);
    assert s.emitted == Recode(e, 0, s.windowSize, fast);
    assert Shl(e, 0) == e;
  }

  /** AbstractGroup::SimultaneousMultiply.  The results are the scalar multiples,
      in every group, and in every monoid when inversion is not used; the
      library passes 0 for windowSizeIn, which lets each slider choose. */
  method SimultaneousMultiply<T(!new)>(
    g: Group<T>, inversionIsFast: bool, results: array<T>, base: T, exps: seq<nat>, wordBits: nat, windowSizeIn: nat)
    requires IsMonoid(g) && (inversionIsFast ==> IsGroup(g)) && wordBits >= 1
    requires |exps| <= results.Length
    modifies results
    ensures forall i :: 0 <= i < |exps| ==> results[i] == Smul(g, exps[i], base)
    ensures forall i :: |exps| <= i < results.Length ==> results[i] == old(results[i])
  {
    hide Pow2, Smul, IsMonoid, IsGroup, Consistent, MaxPosition, Recode;
    var sliders, ws, buckets, cs, bound := StartAll(g, inversionIsFast, base, wordBits, exps, windowSizeIn);
    var expBitPosition, power, notDone := 0, base, true;
    BaseIsMultiple(g, base);
    while notDone
      invariant fresh(sliders) && fresh(buckets)
      invariant AllWaiting(g, base, inversionIsFast, exps, sliders, ws, buckets, cs, 0, expBitPosition)
      invariant !notDone ==> forall i :: 0 <= i < |exps| ==> sliders[i].finished
      invariant power == Smul(g, Pow2(expBitPosition), base)
      invariant results[..] == old(results[..])
      decreases notDone, bound as int - expBitPosition
    {
      notDone, cs := ServePosition(g, base, inversionIsFast, exps, sliders, ws, buckets, cs, expBitPosition, power);
      NextPosition(g, base, inversionIsFast, exps, sliders, ws, buckets, cs, expBitPosition);
      if notDone {
        ghost var i :| 0 <= i < |exps| && !sliders[i].finished;
        WaitingBelowBound(g, base, inversionIsFast, exps, sliders, ws, buckets, cs, expBitPosition, bound, i);
        DoubledMultiple(g, base, expBitPosition);
        power := g.add(power, power);
        expBitPosition := expBitPosition + 1;
      }
    }
    CollectAll(g, inversionIsFast, base, results, exps, sliders, ws, buckets, cs, expBitPosition);
  }

  lemma BaseIsMultiple<T(!new)>(g: Group<T>, base: T)
    requires IsMonoid(g)
    ensures base == Smul(g, Pow2(0), base)
  {
    TimesOne(g, base);
  }

  lemma DoubledMultiple<T(!new)>(g: Group<T>, base: T, position: nat)
    requires IsMonoid(g)
    ensures var power := Smul(g, Pow2(position), base);
      g.add(power, power) == Smul(g, Pow2(position + 1), base)
  {
    SmulDouble(g, Pow2(position), base);
  }

  lemma NextPosition<T(!new)>(
    g: Group<T>, base: T, fast: bool, exps: seq<nat>, sliders: seq<WindowSlider>, ws: seq<nat>,
    buckets: seq<array<T>>, cs: seq<seq<int>>, position: nat)
    requires AllWaiting(g, base, fast, exps, sliders, ws, buckets, cs, |exps|, position)
    ensures AllWaiting(g, base, fast, exps, sliders, ws, buckets, cs, 0, position + 1)
    ensures AllWaiting(g, base, fast, exps, sliders, ws, buckets, cs, 0, position)
  {
    hide Consistent;
    forall i | 0 <= i < |exps|
      ensures Waiting(g, base, fast, exps[i], sliders[i], ws[i], buckets[i], cs[i], position + 1)
      ensures Waiting(g, base, fast, exps[i], sliders[i], ws[i], buckets[i], cs[i], position)
    {
    }
  }

  /** The last loop: one result for every exponent. */
  method CollectAll<T(!new)>(
    g: Group<T>, fast: bool, base: T, results: array<T>, ghost exps: seq<nat>, ghost sliders: seq<WindowSlider>,
    ghost ws: seq<nat>, buckets: seq<array<T>>, ghost cs: seq<seq<int>>, ghost position: nat)
    requires IsMonoid(g) && (fast ==> IsGroup(g))
    requires |exps| <= results.Length && results !in buckets
    requires AllWaiting(g, base, fast, exps, sliders, ws, buckets, cs, 0, position)
    requires forall i :: 0 <= i < |exps| ==> sliders[i].finished
    modifies results, buckets
    ensures forall i :: 0 <= i < |exps| ==> results[i] == Smul(g, exps[i], base)
    ensures forall i :: |exps| <= i < results.Length ==> results[i] == old(results[i])
  {
    hide Smul, IsMonoid, IsGroup, Waiting;
    for i := 0 to |buckets|
      invariant forall k :: 0 <= k < i ==> results[k] == Smul(g, exps[k], base)
      invariant forall k :: i <= k < results.Length ==> results[k] == old(results[k])
      invariant forall k :: i <= k < |buckets| ==>
        Waiting(g, base, fast, exps[k], sliders[k], ws[k], buckets[k], cs[k], position)
    {
      var r := CollectOne(g, fast, base, exps[i], sliders[i], ws[i], buckets[i], cs[i], position);
      results[i] := r;
    }
  }

  method CollectOne<T(!new)>(
    g: Group<T>, fast: bool, base: T, ghost e: nat, ghost s: WindowSlider, ghost w: nat, buckets: array<T>,
    ghost c: seq<int>, ghost position: nat)
    returns (r: T)
    requires IsMonoid(g) && (fast ==> IsGroup(g))
    requires Waiting(g, base, fast, e, s, w, buckets, c, position) && s.finished
    modifies buckets
    ensures r == Smul(g, e, base)
  {
    hide Smul, IsMonoid, IsGroup, Recode, OddWeighted, Pow2;
    FinishedSum(g, base, fast, e, s, buckets, c);
    UsableScalars(g, base, buckets[..], c);
    r := CollectBuckets(g, base, buckets, c);
  }

  lemma UsableScalars<T(!new)>(g: Group<T>, base: T, elements: seq<T>, c: seq<int>)
    requires Holds(g, base, elements, c)
    ensures (forall k :: 0 <= k < |c| ==> c[k] >= 0) || IsGroup(g)
  {
    forall k | 0 <= k < |c| && !IsGroup(g)
      ensures c[k] >= 0
    {
      assert Scalar(g, c[k]);
    }
  }

  /** AbstractGroup::ScalarMultiply. */
  method ScalarMultiply<T(!new)>(g: Group<T>, inversionIsFast: bool, base: T, e: nat, wordBits: nat) returns (r: T)
    requires IsMonoid(g) && (inversionIsFast ==> IsGroup(g)) && wordBits >= 1
    ensures r == Smul(g, e, base)
  {
    var result := new T[1](_ => base);
    SimultaneousMultiply(g, inversionIsFast, result, base, [e], wordBits, 0);
    r := result[0];
  }
}

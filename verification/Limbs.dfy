/** The limb arithmetic inlines of gmp.h: __GMPN_AORS (mpn_add, mpn_sub),
    __GMPN_AORS_1 (mpn_add_1, mpn_sub_1), __GMPN_CMP, __GMPN_COPY_REST and
    mpn_neg, for limbs of any number of bits.  The addition and subtraction
    macros differ in a few tokens; sub chooses between them. */
module Limbs {
  import opened Powers

  // ----- numbers in limbs, least significant first

  /** v * 2^(bits * n) */
  function Place(v: int, bits: nat, n: nat): int {
    if n == 0 then v else Shl(Place(v, bits, n - 1), bits)
  }

  function Value(s: seq<nat>, bits: nat): int {
    if s == [] then 0 else Value(s[..|s| - 1], bits) + Place(s[|s| - 1], bits, |s| - 1)
  }

  ghost predicate AreLimbs(s: seq<nat>, bits: nat) {
    forall i :: 0 <= i < |s| ==> s[i] < Pow2(bits)
  }

  function Signed(sub: bool, v: int): int {
    if sub then -v else v
  }

  lemma {:induction false} PlaceSum(a: int, b: int, bits: nat, n: nat)
    ensures Place(a + b, bits, n) == Place(a, bits, n) + Place(b, bits, n)
  {
    hide Shl;
    if n > 0 {
      PlaceSum(a, b, bits, n - 1);
      ShlSum(Place(a, bits, n - 1), Place(b, bits, n - 1), bits);
    }
  }

  lemma {:induction false} PlaceZero(bits: nat, n: nat)
    ensures Place(0, bits, n) == 0
  {
    hide Shl;
    if n > 0 {
      PlaceZero(bits, n - 1);
      ShlZero(bits);
    }
  }

  lemma {:induction false} PlaceCarry(bits: nat, n: nat)
    ensures Place(Pow2(bits), bits, n) == Place(1, bits, n + 1)
  {
    hide Shl, Pow2;
    if n == 0 {
      ShlOne(bits);
      assert Place(1, bits, 0) == 1;
    } else {
      PlaceCarry(bits, n - 1);
    }
  }

  lemma {:induction false} PlaceMonotone(a: int, b: int, bits: nat, n: nat)
    requires a <= b
    ensures Place(a, bits, n) <= Place(b, bits, n)
  {
    hide Shl;
    if n > 0 {
      PlaceMonotone(a, b, bits, n - 1);
      ShlMonotone(Place(a, bits, n - 1), Place(b, bits, n - 1), bits);
    }
  }

  lemma {:induction false} PlacePositive(bits: nat, n: nat)
    ensures Place(1, bits, n) >= 1
  {
    hide Shl;
    if n > 0 {
      PlacePositive(bits, n - 1);
      ShlGrows(Place(1, bits, n - 1), bits);
    }
  }

  lemma ValueSnoc(s: seq<nat>, v: nat, bits: nat)
    ensures Value(s + [v], bits) == Value(s, bits) + Place(v, bits, |s|)
  {
    assert (s + [v])[..|s|] == s;
  }

  lemma {:induction false} ValueRange(s: seq<nat>, bits: nat)
    requires AreLimbs(s, bits)
    ensures 0 <= Value(s, bits) < Place(1, bits, |s|)
  {
    hide Shl, Pow2;
    if s == [] {
      assert Place(1, bits, 0) == 1;
    } else {
      var n := |s| - 1;
      ValueRange(s[..n], bits);
      PlaceMonotone(0, s[n], bits, n);
      PlaceZero(bits, n);
      PlaceMonotone(s[n] + 1, Pow2(bits), bits, n);
      PlaceSum(s[n], 1, bits, n);
      PlaceCarry(bits, n);
    }
  }

  /** Equal limbs from i on contribute equally. */
  lemma {:induction false} SameTail(s: seq<nat>, t: seq<nat>, bits: nat, i: nat)
    requires |s| == |t| && i <= |s| && forall j :: i <= j < |s| ==> s[j] == t[j]
    ensures Value(s, bits) - Value(s[..i], bits) == Value(t, bits) - Value(t[..i], bits)
    decreases |s|
  {
    hide Place;
    if i == |s| {
      assert s[..i] == s && t[..i] == t;
    } else {
      var n := |s| - 1;
      SameTail(s[..n], t[..n], bits, i);
      assert s[..n][..i] == s[..i] && t[..n][..i] == t[..i];
    }
  }

  /** The higher limb decides. */
  lemma Decides(s: seq<nat>, t: seq<nat>, bits: nat, i: nat)
    requires |s| == |t| && i < |s| && AreLimbs(s, bits) && AreLimbs(t, bits)
    requires s[i] < t[i] && forall j :: i < j < |s| ==> s[j] == t[j]
    ensures Value(s, bits) < Value(t, bits)
  {
    hide Place, Pow2, Value;
    SameTail(s, t, bits, i + 1);
    assert s[..i + 1] == s[..i] + [s[i]] && t[..i + 1] == t[..i] + [t[i]];
    ValueSnoc(s[..i], s[i], bits);
    ValueSnoc(t[..i], t[i], bits);
    ValueRange(s[..i], bits);
    ValueRange(t[..i], bits);
    PlaceSum(s[i], 1, bits, i);
    PlaceMonotone(s[i] + 1, t[i], bits, i);
  }

  /** A value has one representation of each length. */
  lemma ValueInjective(s: seq<nat>, t: seq<nat>, bits: nat)
    requires |s| == |t| && AreLimbs(s, bits) && AreLimbs(t, bits) && Value(s, bits) == Value(t, bits)
    ensures s == t
  {
    if s != t {
      var i := |s| - 1;
      while s[i] == t[i]
        invariant 0 <= i < |s| && forall j :: i < j < |s| ==> s[j] == t[j]
        decreases i
      {
        assert i == 0 ==> s == t;
        i := i - 1;
      }
      if s[i] < t[i] {
        Decides(s, t, bits, i);
      } else {
        Decides(t, s, bits, i);
      }
    }
  }

  // ----- the relation of result and operands

  /** w with carry c is x + y, or with borrow c is x - y, in |x| limbs. */
  ghost predicate Result(sub: bool, w: seq<nat>, c: nat, x: seq<nat>, y: int, bits: nat) {
    && |w| == |x| && AreLimbs(w, bits) && c <= 1
    && Value(w, bits) + Signed(sub, Place(c, bits, |w|)) == Value(x, bits) + Signed(sub, y)
  }

  /** Value and carry are determined by the operands. */
  lemma ResultUnique(sub: bool, w: seq<nat>, c: nat, v: seq<nat>, d: nat, x: seq<nat>, y: int, bits: nat)
    requires Result(sub, w, c, x, y, bits) && Result(sub, v, d, x, y, bits)
    ensures w == v && c == d
  {
    hide Place, Pow2, Value;
    ValueRange(w, bits);
    ValueRange(v, bits);
    PlaceZero(bits, |w|);
    ValueInjective(w, v, bits);
  }

  /** Subtracting undoes adding, and adding subtracting: limbs and carry. */
  lemma Undone(sub: bool, x: seq<nat>, y: int, w: seq<nat>, c: nat, v: seq<nat>, d: nat, bits: nat)
    requires AreLimbs(x, bits) && Result(sub, w, c, x, y, bits) && Result(!sub, v, d, w, y, bits)
    ensures v == x && d == c
  {
    hide Place, Pow2, Value;
    ValueRange(x, bits);
    ValueRange(v, bits);
    PlaceZero(bits, |w|);
    ValueInjective(v, x, bits);
  }

  // ----- one limb

  /** (x + a) or (x - a), masked to a limb. */
  function Masked(sub: bool, x: nat, a: nat, bits: nat): (r: nat)
    requires x < Pow2(bits) && a <= Pow2(bits)
    ensures r < Pow2(bits)
  {
    if sub then (if x < a then x - a + Pow2(bits) else x - a)
    else if x + a >= Pow2(bits) then x + a - Pow2(bits) else x + a
  }

  /** Whether that wrapped around. */
  predicate Wraps(sub: bool, x: nat, a: nat, bits: nat) {
    if sub then x < a else x + a >= Pow2(bits)
  }

  /** A limb step of a carry chain: w and carry c so far, then limb x and
      amount a. */
  lemma CarryStep(sub: bool, w: seq<nat>, x: nat, a: nat, c2: nat, bits: nat)
    requires x < Pow2(bits) && a <= Pow2(bits) && c2 == if Wraps(sub, x, a, bits) then 1 else 0
    ensures var n := |w|; var r := Masked(sub, x, a, bits);
      Value(w + [r], bits) + Signed(sub, Place(c2, bits, n + 1)) ==
        Value(w, bits) + Place(x, bits, n) + Signed(sub, Place(a, bits, n))
  {
    hide Place, Pow2, Value;
    var n, r := |w|, Masked(sub, x, a, bits);
    ValueSnoc(w, r, bits);
    PlaceCarry(bits, n);
    PlaceZero(bits, n + 1);
    if sub {
      PlaceSum(r, a, bits, n);
      PlaceSum(x, Pow2(bits), bits, n);
    } else {
      PlaceSum(r, Pow2(bits), bits, n);
      PlaceSum(x, a, bits, n);
    }
  }

  // ----- the library routine the inlines call

  /** mpn_add_n and mpn_sub_n: limb by limb; w may be x or y. */
  method AddN(sub: bool, w: array<nat>, x: array<nat>, y: array<nat>, n: nat, bits: nat) returns (c: nat)
    requires n <= w.Length && n <= x.Length && n <= y.Length
    requires AreLimbs(x[..n], bits) && AreLimbs(y[..n], bits)
    modifies w
    ensures Result(sub, w[..n], c, old(x[..n]), old(Value(y[..n], bits)), bits)
    ensures forall j :: n <= j < w.Length ==> w[j] == old(w[j])
  {
    hide Place, Pow2, Value;
    ghost var xs: seq<nat>, ys: seq<nat> := x[..n], y[..n];
    c := 0;
    EmptyResult(sub, bits);
    for i := 0 to n
      invariant c <= 1 && AreLimbs(w[..i], bits)
      invariant forall j :: i <= j < n ==> x[j] == xs[j] && y[j] == ys[j]
      invariant forall j :: n <= j < w.Length ==> w[j] == old(w[j])
      invariant Value(w[..i], bits) + Signed(sub, Place(c, bits, i)) ==
        Value(xs[..i], bits) + Signed(sub, Value(ys[..i], bits))
    {
      ghost var done: seq<nat> := w[..i];
      var xl, a := x[i], y[i] + c;
      NStep(sub, done, c, xs, ys, i, bits);
      w[i] := Masked(sub, xl, a, bits);
      c := if Wraps(sub, xl, a, bits) then 1 else 0;
      assert w[..i + 1] == done + [w[i]];
    }
    assert xs[..n] == xs && ys[..n] == ys;
  }

  lemma EmptyResult(sub: bool, bits: nat)
    ensures Value([], bits) == 0 && Place(0, bits, 0) == 0
  {
  }

  lemma NStep(sub: bool, w: seq<nat>, c: nat, xs: seq<nat>, ys: seq<nat>, i: nat, bits: nat)
    requires i < |xs| == |ys| && |w| == i && c <= 1 && AreLimbs(xs, bits) && AreLimbs(ys, bits)
    requires Value(w, bits) + Signed(sub, Place(c, bits, i)) == Value(xs[..i], bits) + Signed(sub, Value(ys[..i], bits))
    ensures xs[i] < Pow2(bits) && ys[i] + c <= Pow2(bits)
    ensures var r := Masked(sub, xs[i], ys[i] + c, bits);
      var c2 := if Wraps(sub, xs[i], ys[i] + c, bits) then 1 else 0;
      Value(w + [r], bits) + Signed(sub, Place(c2, bits, i + 1)) ==
        Value(xs[..i + 1], bits) + Signed(sub, Value(ys[..i + 1], bits))
  {
    hide Place, Pow2, Value;
    CarryStep(sub, w, xs[i], ys[i] + c, if Wraps(sub, xs[i], ys[i] + c, bits) then 1 else 0, bits);
    PlaceSum(ys[i], c, bits, i);
    ValueSnoc(xs[..i], xs[i], bits);
    ValueSnoc(ys[..i], ys[i], bits);
    assert xs[..i + 1] == xs[..i] + [xs[i]] && ys[..i + 1] == ys[..i] + [ys[i]];
  }

  // ----- __GMPN_COPY_REST

  method CopyRest(dst: array<nat>, src: array<nat>, size: nat, start: nat)
    requires start <= size <= dst.Length && size <= src.Length
    modifies dst
    ensures forall j :: start <= j < size ==> dst[j] == old(src[j])
    ensures forall j :: 0 <= j < dst.Length && !(start <= j < size) ==> dst[j] == old(dst[j])
  {
    for j := start to size
      invariant forall m :: start <= m < j ==> dst[m] == old(src[m])
      invariant forall m :: 0 <= m < dst.Length && !(start <= m < j) ==> dst[m] == old(dst[m])
    {
      dst[j] := src[j];
    }
  }

  // ----- the carry chain of both macros

  /** Limb i takes a carry. */
  lemma ChainStep(sub: bool, w: seq<nat>, xs: seq<nat>, i: nat, y: int, bits: nat)
    requires i < |xs| && |w| == i && AreLimbs(xs, bits) && AreLimbs(w, bits)
    requires Value(w, bits) + Signed(sub, Place(1, bits, i)) == Value(xs[..i], bits) + Signed(sub, y)
    ensures Pow2(bits) >= 1 && xs[i] < Pow2(bits)
    ensures var r := Masked(sub, xs[i], 1, bits);
      var c2 := if Wraps(sub, xs[i], 1, bits) then 1 else 0;
      && AreLimbs(w + [r], bits)
      && Value(w + [r], bits) + Signed(sub, Place(c2, bits, i + 1)) == Value(xs[..i + 1], bits) + Signed(sub, y)
      && (Wraps(sub, xs[i], 1, bits) <==> if sub then xs[i] == 0 else r == 0)
  {
    hide Place, Pow2, Value;
    CarryStep(sub, w, xs[i], 1, if Wraps(sub, xs[i], 1, bits) then 1 else 0, bits);
    ValueSnoc(xs[..i], xs[i], bits);
    assert xs[..i + 1] == xs[..i] + [xs[i]];
  }

  /** Without a carry the rest is a copy. */
  lemma Settled(sub: bool, w: seq<nat>, xs: seq<nat>, i: nat, y: int, bits: nat)
    requires i <= |xs| == |w| && AreLimbs(xs, bits) && AreLimbs(w[..i], bits)
    requires Value(w[..i], bits) + Signed(sub, Place(0, bits, i)) == Value(xs[..i], bits) + Signed(sub, y)
    requires forall j :: i <= j < |w| ==> w[j] == xs[j]
    ensures Result(sub, w, 0, xs, y, bits)
  {
    hide Place, Pow2, Value;
    PlaceZero(bits, i);
    PlaceZero(bits, |w|);
    SameTail(w, xs, bits, i);
    forall j | 0 <= j < |w| ensures w[j] < Pow2(bits) {
      if j < i {
        assert w[j] == w[..i][j];
      }
    }
  }

  /** Copies the rest unless it is in place already. */
  method FinishCopy(
    sub: bool, dst: array<nat>, src: array<nat>, n: nat, i: nat, ghost xs: seq<nat>, ghost v: int, bits: nat)
    requires i <= n <= dst.Length && n <= src.Length && |xs| == n && AreLimbs(xs, bits) && AreLimbs(dst[..i], bits)
    requires forall j :: i <= j < n ==> src[j] == xs[j]
    requires Value(dst[..i], bits) + Signed(sub, Place(0, bits, i)) == Value(xs[..i], bits) + Signed(sub, v)
    modifies dst
    ensures Result(sub, dst[..n], 0, xs, v, bits)
    ensures forall j :: n <= j < dst.Length ==> dst[j] == old(dst[j])
  {
    hide Place, Pow2, Value;
    ghost var done: seq<nat> := dst[..i];
    if dst != src {
      CopyRest(dst, src, n, i);
    }
    assert dst[..i] == done == dst[..n][..i];
    Settled(sub, dst[..n], xs, i, v, bits);
  }

  /** mpn_add and mpn_sub, with w the same array as x or y or neither. */
  method AddOrSub(
    sub: bool, w: array<nat>, x: array<nat>, xsize: nat, y: array<nat>, ysize: nat, bits: nat)
    returns (c: nat)
    requires ysize <= xsize && xsize <= w.Length && xsize <= x.Length && ysize <= y.Length
    requires AreLimbs(x[..xsize], bits) && AreLimbs(y[..ysize], bits)
    modifies w
    ensures Result(sub, w[..xsize], c, old(x[..xsize]), old(Value(y[..ysize], bits)), bits)
    ensures forall j :: xsize <= j < w.Length ==> w[j] == old(w[j])
  {
    hide Place, Pow2, Value;
    ghost var xs: seq<nat>, yv := x[..xsize], Value(y[..ysize], bits);
    var i := ysize;
    assert x[..ysize] == xs[..ysize];
    c := 0;
    if i != 0 {
      c := AddN(sub, w, x, y, i, bits);
      if c == 1 {
        while true
          invariant ysize <= i <= xsize && AreLimbs(w[..i], bits)
          invariant forall j :: i <= j < xsize ==> x[j] == xs[j]
          invariant forall j :: xsize <= j < w.Length ==> w[j] == old(w[j])
          invariant Value(w[..i], bits) + Signed(sub, Place(1, bits, i)) == Value(xs[..i], bits) + Signed(sub, yv)
          decreases xsize - i
        {
          if i >= xsize {
            assert xs[..i] == xs;
            return 1;
          }
          ghost var done: seq<nat> := w[..i];
          ChainStep(sub, done, xs, i, yv, bits);
          var xl := x[i];
          w[i] := Masked(sub, xl, 1, bits);
          assert w[..i + 1] == done + [w[i]];
          i := i + 1;
          if !(if sub then xl == 0 else w[i - 1] == 0) {
            break;
          }
        }
      }
    } else {
      EmptyResult(sub, bits);
      assert y[..ysize] == [] && w[..i] == [] == xs[..i];
    }
    FinishCopy(sub, w, x, xsize, i, xs, yv, bits);
    return 0;
  }

  /** mpn_add_1 and mpn_sub_1, with dst the same array as src or not.  The carry
      out of an addition is recognised by a result below the addend. */
  method AddOrSub1(sub: bool, dst: array<nat>, src: array<nat>, n: nat, v: nat, bits: nat) returns (c: nat)
    requires 1 <= n <= dst.Length && n <= src.Length && AreLimbs(src[..n], bits) && v < Pow2(bits)
    modifies dst
    ensures Result(sub, dst[..n], c, old(src[..n]), v, bits)
    ensures forall j :: n <= j < dst.Length ==> dst[j] == old(dst[j])
  {
    hide Place, Pow2, Value;
    ghost var xs: seq<nat> := src[..n];
    var x := src[0];
    FirstStep(sub, xs, v, bits);
    var r := Masked(sub, x, v, bits);
    dst[0] := r;
    assert dst[..1] == [r];
    if if sub then x < v else r < v {
      c := 1;
      var i := 1;
      while i < n
        invariant 1 <= i <= n && AreLimbs(dst[..i], bits)
        invariant forall j :: i <= j < n ==> src[j] == xs[j]
        invariant forall j :: n <= j < dst.Length ==> dst[j] == old(dst[j])
        invariant Value(dst[..i], bits) + Signed(sub, Place(1, bits, i)) == Value(xs[..i], bits) + Signed(sub, v)
      {
        ghost var done: seq<nat> := dst[..i];
        ChainStep(sub, done, xs, i, v, bits);
        x := src[i];
        r := Masked(sub, x, 1, bits);
        dst[i] := r;
        assert dst[..i + 1] == done + [r];
        i := i + 1;
        if !(if sub then x < 1 else r < 1) {
          FinishCopy(sub, dst, src, n, i, xs, v, bits);
          return 0;
        }
      }
      assert xs[..n] == xs;
    } else {
      FinishCopy(sub, dst, src, n, 1, xs, v, bits);
      return 0;
    }
  }

  lemma FirstStep(sub: bool, xs: seq<nat>, v: nat, bits: nat)
    requires |xs| >= 1 && AreLimbs(xs, bits) && v < Pow2(bits)
    ensures xs[0] < Pow2(bits)
    ensures var r := Masked(sub, xs[0], v, bits);
      var c := if Wraps(sub, xs[0], v, bits) then 1 else 0;
      && Value([r], bits) + Signed(sub, Place(c, bits, 1)) == Value(xs[..1], bits) + Signed(sub, v)
      && (Wraps(sub, xs[0], v, bits) <==> if sub then xs[0] < v else r < v)
  {
    CarryStep(sub, [], xs[0], v, if Wraps(sub, xs[0], v, bits) then 1 else 0, bits);
    hide Pow2, Value, Shl;
    var r := Masked(sub, xs[0], v, bits);
    assert [] + [r] == [r];
    ValueSnoc([], xs[0], bits);
    EmptyResult(sub, bits);
    assert xs[..1] == [] + [xs[0]];
  }

  // ----- mpn_cmp

  function Sign(v: int): int {
    if v > 0 then 1 else if v < 0 then -1 else 0
  }

  method Cmp(x: array<nat>, y: array<nat>, size: nat, bits: nat) returns (result: int)
    requires size <= x.Length && size <= y.Length && AreLimbs(x[..size], bits) && AreLimbs(y[..size], bits)
    ensures result == Sign(Value(x[..size], bits) - Value(y[..size], bits))
  {
    hide Place, Pow2, Value;
    result := 0;
    var i: int := size - 1;
    while i >= 0
      invariant -1 <= i < size
      invariant forall j :: i < j < size ==> x[j] == y[j]
    {
      if x[i] != y[i] {
        if x[i] > y[i] {
          Decides(y[..size], x[..size], bits, i);
        } else {
          Decides(x[..size], y[..size], bits, i);
        }
        return if x[i] > y[i] then 1 else -1;
      }
      i := i - 1;
    }
    assert x[..size] == y[..size];
  }

  // ----- mpn_neg

  /** What the loop of mpn_neg writes: every limb is cy - ul, where the negative
      of the number needs -ul - cy. */
  function NegWritten(u: seq<nat>, bits: nat): (r: seq<nat>)
    requires AreLimbs(u, bits)
    ensures |r| == |u| && AreLimbs(r, bits)
  {
    if u == [] then [] else
    var n := |u| - 1;
    NegWritten(u[..n], bits) + [NegLimb(u[n], NonZero(u[..n]), bits)]
  }

  /** (mp_limb_t) -(ul - cy) */
  function NegLimb(ul: nat, cy: bool, bits: nat): (r: nat)
    requires ul < Pow2(bits)
    ensures r < Pow2(bits)
  {
    var d: int := if cy then 1 - ul else 0 - ul;
    if d >= Pow2(bits) then d - Pow2(bits) else if d < 0 then d + Pow2(bits) else d
  }

  predicate NonZero(u: seq<nat>) {
    exists i :: 0 <= i < |u| && u[i] != 0
  }

  /** r is c - u modulo the limb. */
  ghost predicate NegatedBy(r: nat, u: nat, c: nat, bits: nat) {
    r + u == c || r + u == c + Pow2(bits)
  }

  lemma {:induction false} NegLimbs(u: seq<nat>, bits: nat, i: nat)
    requires AreLimbs(u, bits) && i < |u|
    ensures NegatedBy(NegWritten(u, bits)[i], u[i], if NonZero(u[..i]) then 1 else 0, bits)
  {
    var n := |u| - 1;
    hide Pow2;
    if NonZero(u[..n]) {
      var k :| 0 <= k < n && u[..n][k] != 0;
      assert 1 <= u[k] < Pow2(bits);
    }
    if i < n {
      NegLimbs(u[..n], bits, i);
      assert u[..n][..i] == u[..i];
    }
  }

  method Neg(r: array<nat>, u: array<nat>, n: nat, bits: nat) returns (cy: nat)
    requires 1 <= n <= r.Length && n <= u.Length && AreLimbs(u[..n], bits)
    modifies r
    ensures r[..n] == NegWritten(old(u[..n]), bits)
    ensures forall i :: 0 <= i < n ==> NegatedBy(r[i], old(u[i]), if NonZero(old(u[..i])) then 1 else 0, bits)
    ensures cy == if NonZero(old(u[..n])) then 1 else 0
    ensures forall j :: n <= j < r.Length ==> r[j] == old(r[j])
  {
    hide Pow2, NegLimb;
    ghost var us: seq<nat> := u[..n];
    cy := 0;
    for i := 0 to n
      invariant r[..i] == NegWritten(us[..i], bits)
      invariant cy == if NonZero(us[..i]) then 1 else 0
      invariant forall j :: i <= j < n ==> u[j] == us[j]
      invariant forall j :: n <= j < r.Length ==> r[j] == old(r[j])
    {
      var ul := u[i];
      assert us[..i + 1][..i] == us[..i];
      assert NonZero(us[..i + 1]) <==> NonZero(us[..i]) || us[i] != 0 by {
        if NonZero(us[..i]) {
          var j :| 0 <= j < i && us[..i][j] != 0;
          assert us[..i + 1][j] != 0;
        }
        if us[i] != 0 {
          assert us[..i + 1][i] != 0;
        }
      }
      ghost var done := r[..i];
      r[i] := NegLimb(ul, cy == 1, bits);
      assert r[..i + 1] == done + [r[i]];
      cy := if cy == 1 || ul != 0 then 1 else 0;
    }
    assert us[..n] == us;
    forall i | 0 <= i < n
      ensures NegatedBy(r[i], old(u[i]), if NonZero(old(u[..i])) then 1 else 0, bits)
    {
      NegLimbs(us, bits, i);
      assert us[..i] == old(u[..i]);
      assert r[i] == r[..n][i];
    }
  }

  /** The two's complement negative of u. */
  ghost predicate IsNegative(r: seq<nat>, u: seq<nat>, bits: nat) {
    |r| == |u| && AreLimbs(r, bits) &&
    Value(r, bits) + Value(u, bits) == if NonZero(u) then Place(1, bits, |u|) else 0
  }

  function TrueNegative(u: seq<nat>, bits: nat): (r: seq<nat>)
    requires AreLimbs(u, bits)
    ensures |r| == |u| && AreLimbs(r, bits)
  {
    if u == [] then [] else
    var n := |u| - 1;
    var limb := if NonZero(u[..n]) then Pow2(bits) - 1 - u[n] else if u[n] == 0 then 0 else Pow2(bits) - u[n];
    TrueNegative(u[..n], bits) + [limb]
  }

  lemma NonZeroSnoc(u: seq<nat>)
    requires u != []
    ensures NonZero(u) <==> NonZero(u[..|u| - 1]) || u[|u| - 1] != 0
  {
    if NonZero(u[..|u| - 1]) {
      var j :| 0 <= j < |u| - 1 && u[..|u| - 1][j] != 0;
      assert u[j] != 0;
    }
  }

  lemma {:induction false} TrueNegativeIs(u: seq<nat>, bits: nat)
    requires AreLimbs(u, bits)
    ensures IsNegative(TrueNegative(u, bits), u, bits)
  {
    hide Place, Pow2;
    if u != [] {
      var n := |u| - 1;
      TrueNegativeIs(u[..n], bits);
      NonZeroSnoc(u);
      var r := TrueNegative(u, bits);
      assert r[..n] == TrueNegative(u[..n], bits);
      PlaceSum(r[n], u[n], bits, n);
      PlaceSum(Pow2(bits) - 1, 1, bits, n);
      PlaceCarry(bits, n);
      PlaceZero(bits, n);
    }
  }

  /** mpn_neg negates exactly the numbers whose limbs below the last are zero:
      with a carry into a further limb, that limb is wrong. */
  lemma NegCorrect(u: seq<nat>, bits: nat)
    requires u != [] && AreLimbs(u, bits) && bits >= 2
    ensures IsNegative(NegWritten(u, bits), u, bits) <==> !NonZero(u[..|u| - 1])
  {
    hide Value, Place, Pow2, NegWritten, TrueNegative, NonZero;
    var r, t := NegWritten(u, bits), TrueNegative(u, bits);
    TrueNegativeIs(u, bits);
    if IsNegative(r, u, bits) {
      ValueInjective(r, t, bits);
    }
    LastLimb(u, bits);
    if !NonZero(u[..|u| - 1]) {
      ZeroPrefix(u[..|u| - 1], bits);
    }
  }

  lemma LastLimb(u: seq<nat>, bits: nat)
    requires u != [] && AreLimbs(u, bits) && bits >= 2
    ensures var n := |u| - 1;
      if NonZero(u[..n]) then NegWritten(u, bits)[n] != TrueNegative(u, bits)[n]
      else NegWritten(u[..n], bits) == TrueNegative(u[..n], bits) ==> NegWritten(u, bits) == TrueNegative(u, bits)
  {
    var n := |u| - 1;
    LargeBase(bits);
    hide Pow2, NonZero;
    assert NegWritten(u, bits)[n] == NegLimb(u[n], NonZero(u[..n]), bits);
  }

  lemma LargeBase(bits: nat)
    requires bits >= 2
    ensures Pow2(bits) >= 4
  {
    assert Pow2(bits - 2) >= 1;
    assert Pow2(bits - 1) == 2 * Pow2(bits - 2);
  }

  lemma {:induction false} ZeroPrefix(u: seq<nat>, bits: nat)
    requires AreLimbs(u, bits) && !NonZero(u)
    ensures NegWritten(u, bits) == TrueNegative(u, bits)
  {
    hide Pow2;
    if u != [] {
      NonZeroSnoc(u);
      ZeroPrefix(u[..|u| - 1], bits);
    }
  }

  lemma NegWrong()
    ensures NegWritten([1, 0], 32) == [Pow2(32) - 1, 1]
    ensures !IsNegative(NegWritten([1, 0], 32), [1, 0], 32)
  {
    hide Value, Place;
    assert Pow2(30) >= 1;
    assert Pow2(32) == 4 * Pow2(30);
    hide Pow2;
    var u: seq<nat> := [1, 0];
    assert u[..1] == [1] && u[..1][..0] == [];
    assert u[..1][0] != 0;
    NegCorrect(u, 32);
  }
}

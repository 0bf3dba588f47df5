/** Numbers as bit strings, most significant bit first, and bytes as chunks of
    them. */
module BitStrings {
  import opened Powers

  function Bits(v: nat, n: nat): (s: seq<bool>)
    ensures |s| == n
  {
    if n == 0 then [] else Bits(v / 2, n - 1) + [v % 2 == 1]
  }

  function Unbits(s: seq<bool>): (v: nat)
    ensures v < Pow2(|s|)
  {
    if s == [] then 0 else 2 * Unbits(s[..|s| - 1]) + if s[|s| - 1] then 1 else 0
  }

  lemma {:induction false} UnbitsBits(v: nat, n: nat)
    requires v < Pow2(n)
    ensures Unbits(Bits(v, n)) == v
  {
    if n > 0 {
      UnbitsBits(v / 2, n - 1);
      assert Bits(v, n)[..n - 1] == Bits(v / 2, n - 1);
    }
  }

  lemma {:induction false} BitsUnbits(s: seq<bool>)
    ensures Bits(Unbits(s), |s|) == s
  {
    if s != [] {
      BitsUnbits(s[..|s| - 1]);
      assert s == s[..|s| - 1] + [s[|s| - 1]];
    }
  }

  /** The bits of a number put together from two parts. */
  lemma {:induction false} BitsJoin(y: nat, m: nat, x: nat, n: nat)
    requires x < Pow2(n)
    ensures Shl(y, n) >= 0 && Bits(Shl(y, n) + x, m + n) == Bits(y, m) + Bits(x, n)
    decreases n
  {
    ShlGrows(y, n);
    if n > 0 {
      BitsJoin(y, m, x / 2, n - 1);
      assert (Shl(y, n) + x) / 2 == Shl(y, n - 1) + x / 2;
      assert (Shl(y, n) + x) % 2 == x % 2;
    }
  }

  lemma {:induction false} ShlBound(y: nat, m: nat, x: nat, n: nat)
    requires y < Pow2(m) && x < Pow2(n)
    ensures Shl(y, n) + x < Pow2(m + n)
    decreases n
  {
    if n > 0 {
      ShlBound(y, m, x / 2, n - 1);
    }
  }

  /** Bitwise or. */
  function Or(a: nat, b: nat): nat
    decreases a + b
  {
    if a == 0 then b else if b == 0 then a
    else 2 * Or(a / 2, b / 2) + if a % 2 == 1 || b % 2 == 1 then 1 else 0
  }

  lemma {:induction false} OrHalves(a: nat, b: nat)
    ensures Or(a, b) == 2 * Or(a / 2, b / 2) + if a % 2 == 1 || b % 2 == 1 then 1 else 0
  {
  }

  /** Or of disjoint bits is addition. */
  lemma {:induction false} OrDisjoint(a: nat, n: nat, b: nat)
    requires b < Pow2(n)
    ensures Shl(a, n) >= 0 && Or(Shl(a, n), b) == Shl(a, n) + b
    decreases n
  {
    ShlGrows(a, n);
    if n > 0 {
      OrDisjoint(a, n - 1, b / 2);
      OrHalves(Shl(a, n), b);
    }
  }

  // ----- strings of k-bit groups

  /** All the bits of a string of k-bit numbers. */
  function AllBits(s: seq<nat>, k: nat): seq<bool> {
    if s == [] then [] else AllBits(s[..|s| - 1], k) + Bits(s[|s| - 1], k)
  }

  lemma AllBitsSnoc(s: seq<nat>, v: nat, k: nat)
    ensures AllBits(s + [v], k) == AllBits(s, k) + Bits(v, k)
  {
    assert (s + [v])[..|s|] == s;
  }

  lemma {:induction false} AllBitsConcat(s: seq<nat>, t: seq<nat>, k: nat)
    ensures AllBits(s + t, k) == AllBits(s, k) + AllBits(t, k)
  {
    if t == [] {
      assert s + t == s;
    } else {
      AllBitsConcat(s, t[..|t| - 1], k);
      assert (s + t)[..|s + t| - 1] == s + t[..|t| - 1];
    }
  }

  lemma {:induction false} AllBitsLength(s: seq<nat>, k: nat)
    ensures |AllBits(s, k)| == k * |s|
  {
    if s != [] {
      AllBitsLength(s[..|s| - 1], k);
      assert k * |s| == k * (|s| - 1) + k;
    }
  }

  /** Bits cut into k-bit numbers, the last one filled up with zeros. */
  function Groups(bits: seq<bool>, k: nat): (g: seq<nat>)
    requires k >= 1
    ensures forall v <- g :: v < Pow2(k)
    decreases |bits|
  {
    if bits == [] then []
    else if |bits| < k then LastGroup(bits, k); [Shl(Unbits(bits), k - |bits|)]
    else
      var first, more := Unbits(bits[..k]), Groups(bits[k..], k);
      assert forall v <- [first] + more :: v == first || v in more;
      [first] + more
  }

  lemma LastGroup(bits: seq<bool>, k: nat)
    requires |bits| < k
    ensures 0 <= Shl(Unbits(bits), k - |bits|) < Pow2(k)
  {
    ShlGrows(Unbits(bits), k - |bits|);
    ShlBound(Unbits(bits), |bits|, 0, k - |bits|);
  }

  /** Bits cut into whole k-bit numbers, an incomplete last one dropped. */
  function Whole(bits: seq<bool>, k: nat): seq<nat>
    requires k >= 1
    decreases |bits|
  {
    if |bits| < k then [] else [Unbits(bits[..k])] + Whole(bits[k..], k)
  }

  function Zeros(n: nat): seq<bool> {
    seq(n, _ => false)
  }

  lemma {:induction false} ZeroBits(n: nat)
    ensures Bits(0, n) == Zeros(n)
  {
    if n > 0 {
      ZeroBits(n - 1);
      assert Zeros(n) == Zeros(n - 1) + [false];
    }
  }

  /** Cutting into groups loses nothing and adds less than one group. */
  lemma {:induction false} GroupsBits(bits: seq<bool>, k: nat) returns (pad: nat)
    requires k >= 1
    ensures pad < k && AllBits(Groups(bits, k), k) == bits + Zeros(pad)
    decreases |bits|
  {
    hide Bits, Unbits, Shl;
    if bits == [] {
      pad := 0;
      assert bits + Zeros(0) == bits;
    } else if |bits| < k {
      pad := k - |bits|;
      LastGroup(bits, k);
      LastGroupBits(bits, pad);
      AllBitsSnoc([], Shl(Unbits(bits), pad), k);
      assert [] + [Shl(Unbits(bits), pad)] == [Shl(Unbits(bits), pad)];
    } else {
      pad := GroupsBits(bits[k..], k);
      var first, more := Unbits(bits[..k]), Groups(bits[k..], k);
      AllBitsConcat([first], more, k);
      AllBitsSnoc([], first, k);
      assert [] + [first] == [first];
      BitsUnbits(bits[..k]);
      assert bits[..k] + (bits[k..] + Zeros(pad)) == bits + Zeros(pad);
    }
  }

  lemma LastGroupBits(bits: seq<bool>, pad: nat)
    ensures Shl(Unbits(bits), pad) >= 0 && Bits(Shl(Unbits(bits), pad), |bits| + pad) == bits + Zeros(pad)
  {
    hide Bits, Unbits, Shl;
    BitsJoin(Unbits(bits), |bits|, 0, pad);
    BitsUnbits(bits);
    ZeroBits(pad);
  }

  /** Whole groups come back, whatever short rest follows them. */
  lemma {:induction false} WholeBits(s: seq<nat>, k: nat, rest: seq<bool>)
    requires k >= 1 && |rest| < k && forall v <- s :: v < Pow2(k)
    ensures Whole(AllBits(s, k) + rest, k) == s
  {
    hide Bits, Pow2;
    if s == [] {
      assert [] + rest == rest;
    } else {
      var first, more := s[0], s[1..];
      assert s == [first] + more;
      assert forall v <- more :: v in s;
      AllBitsConcat([first], more, k);
      AllBitsSnoc([], first, k);
      assert [] + [first] == [first];
      WholeBits(more, k, rest);
      var bits := AllBits(s, k) + rest;
      assert bits[..k] == Bits(first, k);
      assert bits[k..] == AllBits(more, k) + rest;
      assert first in s;
      UnbitsBits(first, k);
    }
  }

  /** The groups of a bit string are the only k-bit numbers that spell it. */
  lemma GroupsUnique(s: seq<nat>, k: nat, bits: seq<bool>, pad: nat)
    requires k >= 1 && pad < k && forall v <- s :: v < Pow2(k)
    requires AllBits(s, k) == bits + Zeros(pad)
    ensures s == Groups(bits, k)
  {
    hide AllBits, Groups, Whole, Pow2;
    var other := GroupsBits(bits, k);
    var g := Groups(bits, k);
    AllBitsLength(s, k);
    AllBitsLength(g, k);
    SameCount(k, |s|, |g|, |bits|, pad, other);
    WholeBits(s, k, []);
    WholeBits(g, k, []);
  }

  lemma SameCount(k: nat, m: nat, n: nat, bits: nat, pad: nat, other: nat)
    requires k * m == bits + pad && k * n == bits + other && pad < k && other < k
    ensures pad == other
  {
    Apart(k, m, n);
    Apart(k, n, m);
  }

  lemma {:induction false} Apart(k: nat, m: nat, n: nat)
    ensures m < n ==> k * m + k <= k * n
  {
    if m + 1 < n {
      Apart(k, m, n - 1);
      assert k * n == k * (n - 1) + k;
    }
  }

  // ----- the bits of shifted and truncated numbers

  lemma {:induction false} BitsShr(v: nat, m: nat, n: nat)
    requires m <= n
    ensures Bits(Shr(v, m), n - m) == Bits(v, n)[..n - m]
    decreases m
  {
    if m > 0 {
      BitsShr(v, m - 1, n);
      var x := Shr(v, m - 1);
      assert Bits(x, n - m + 1)[..n - m] == Bits(x / 2, n - m);
    }
  }

  lemma {:induction false} BitsLast(v: nat, n: nat, m: nat)
    requires m <= n
    ensures Bits(v, n)[n - m..] == Bits(v, m)
  {
    if m > 0 {
      BitsLast(v / 2, n - 1, m - 1);
    }
  }

  lemma BitsShl(v: nat, m: nat, n: nat)
    requires m <= n
    ensures Shl(v, m) >= 0 && Bits(Shl(v, m), n) == Bits(v, n)[m..] + Zeros(m)
  {
    hide Bits, Shl;
    BitsJoin(v, n - m, 0, m);
    ZeroBits(m);
    BitsLast(v, n, n - m);
  }

  lemma BitsLow(v: nat, n: nat)
    ensures Bits(Low(v, n), n) == Bits(v, n)
  {
    hide Bits, Shl, Low;
    ShrLow(v, n);
    BitsJoin(Shr(v, n), 0, Low(v, n), n);
    assert Bits(Shr(v, n), 0) == [];
  }

  // ----- a buffer of cells filled from the left

  /** The w-bit cells of buf spell bits, followed by zeros. */
  ghost predicate Packed(buf: seq<nat>, w: nat, bits: seq<bool>) {
    && (forall v <- buf :: v < Pow2(w))
    && |bits| <= |AllBits(buf, w)|
    && AllBits(buf, w) == bits + Zeros(|AllBits(buf, w)| - |bits|)
  }

  /** Or-ing a right-aligned number into the free part of a cell. */
  lemma OrInto(c: nat, w: nat, p: seq<bool>, v: nat, r: nat)
    requires c < Pow2(w) && w == |p| + r && Bits(c, w) == p + Zeros(r) && v < Pow2(r)
    ensures Or(c, v) < Pow2(w) && Bits(Or(c, v), w) == p + Bits(v, r)
  {
    hide Bits, Shl, Or, Unbits, Pow2;
    var y := Unbits(p);
    ShlGrows(y, r);
    LastGroupBits(p, r);
    assert Pow2(r) > 0;
    ShlBound(y, |p|, 0, r);
    UnbitsBits(Shl(y, r), w);
    UnbitsBits(c, w);
    OrDisjoint(y, r, v);
    BitsJoin(y, |p|, v, r);
    BitsUnbits(p);
    ShlBound(y, |p|, v, r);
  }

  lemma AllBitsSplit(buf: seq<nat>, w: nat, i: nat)
    requires i < |buf|
    ensures AllBits(buf, w) == AllBits(buf[..i], w) + Bits(buf[i], w) + AllBits(buf[i + 1..], w)
  {
    AllBitsSnoc(buf[..i], buf[i], w);
    AllBitsConcat(buf[..i] + [buf[i]], buf[i + 1..], w);
    assert buf == (buf[..i] + [buf[i]]) + buf[i + 1..];
  }

  /** Filling the rest of cell i appends to the bits. */
  lemma Deposit(buf: seq<nat>, w: nat, bits: seq<bool>, i: nat, t: nat, v: nat)
    requires Packed(buf, w, bits) && i < |buf| && t <= w && |bits| == w * i + t
    requires v < Pow2(w - t)
    ensures Packed(buf[i := Or(buf[i], v)], w, bits + Bits(v, w - t))
  {
    hide AllBits, Bits, Or, Pow2;
    var r := w - t;
    var a, c, z := AllBits(buf[..i], w), buf[i], AllBits(buf[i + 1..], w);
    var n := |AllBits(buf, w)| - |bits|;
    AllBitsSplit(buf, w, i);
    AllBitsLength(buf[..i], w);
    assert |a| == w * i;
    var all := bits + Zeros(n);
    assert all == a + Bits(c, w) + z;
    assert n == r + |z|;
    var p := bits[w * i..];
    assert Bits(c, w) == all[w * i..w * i + w] == p + Zeros(r);
    assert z == all[w * i + w..] == Zeros(|z|);
    assert a == all[..w * i] == bits[..w * i];
    assert c in buf;
    OrInto(c, w, p, v, r);
    var buf2 := buf[i := Or(c, v)];
    assert buf2[..i] == buf[..i] && buf2[i + 1..] == buf[i + 1..];
    AllBitsSplit(buf2, w, i);
    assert AllBits(buf2, w) == a + (p + Bits(v, r)) + z;
    assert a + (p + Bits(v, r)) + z == (bits + Bits(v, r)) + Zeros(|z|);
    forall x <- buf2 ensures x < Pow2(w) {
      assert x == Or(c, v) || x in buf;
    }
  }

  /** The trailing zeros of what has been deposited are still free. */
  lemma PackedLess(buf: seq<nat>, w: nat, bits: seq<bool>, z: nat)
    requires Packed(buf, w, bits + Zeros(z))
    ensures Packed(buf, w, bits)
  {
    var n := |AllBits(buf, w)| - |bits| - z;
    assert (bits + Zeros(z)) + Zeros(n) == bits + Zeros(z + n);
  }

  lemma {:induction false} PackedEmpty(n: nat, w: nat)
    ensures Packed(seq(n, _ => 0), w, [])
  {
    AllZeros(n, w);
    AllBitsLength(seq(n, _ => 0), w);
  }

  lemma {:induction false} AllZeros(n: nat, w: nat)
    ensures AllBits(seq(n, _ => 0), w) == Zeros(w * n)
  {
    if n > 0 {
      AllZeros(n - 1, w);
      AllBitsSnoc(seq(n - 1, _ => 0), 0, w);
      assert seq(n, _ => 0) == seq(n - 1, _ => 0) + [0];
      ZeroBits(w);
      assert w * n == w * (n - 1) + w;
      assert Zeros(w * n) == Zeros(w * (n - 1)) + Zeros(w);
    }
  }

  /** The cells that the bits reach. */
  lemma PackedFront(buf: seq<nat>, w: nat, bits: seq<bool>, m: nat)
    requires Packed(buf, w, bits) && m <= |buf| && |bits| <= w * m
    ensures |AllBits(buf[..m], w)| == w * m && AllBits(buf[..m], w) == bits + Zeros(w * m - |bits|)
  {
    AllBitsConcat(buf[..m], buf[m..], w);
    assert buf == buf[..m] + buf[m..];
    AllBitsLength(buf[..m], w);
    assert AllBits(buf[..m], w) == AllBits(buf, w)[..w * m];
  }
}

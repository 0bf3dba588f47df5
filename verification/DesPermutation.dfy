/** The initial and final permutation of DES, by their tables (FIPS 46-3), and
    the rotate-and-mask code that computes them (crypto++/des.cpp). */
module DesPermutation {

  /** A block as two words, left and right. */
  type Words = (bv32, bv32)

  function Swap(w: Words): Words {
    (w.1, w.0)
  }

  /** The code works on halves rotated by one. */
  function RotateUp(w: Words): Words {
    (w.0.RotateLeft(1), w.1.RotateLeft(1))
  }

  function RotateDown(w: Words): Words {
    (w.0.RotateRight(1), w.1.RotateRight(1))
  }

  // ----- the code

  function IPERM(w: Words): Words {
    var (l, r) := w;
    var r := r.RotateLeft(4);
    var work := (l ^ r) & 0xf0f0_f0f0;
    var l, r := l ^ work, (r ^ work).RotateRight(20);
    var work := (l ^ r) & 0xffff_0000;
    var l, r := l ^ work, (r ^ work).RotateRight(18);
    var work := (l ^ r) & 0x3333_3333;
    var l, r := l ^ work, (r ^ work).RotateRight(6);
    var work := (l ^ r) & 0x00ff_00ff;
    var l, r := l ^ work, (r ^ work).RotateLeft(9);
    var work := (l ^ r) & 0xaaaa_aaaa;
    ((l ^ work).RotateLeft(1), r ^ work)
  }

  function FPERM(w: Words): Words {
    var (l, r) := w;
    var r := r.RotateRight(1);
    var work := (l ^ r) & 0xaaaa_aaaa;
    var r, l := r ^ work, (l ^ work).RotateRight(9);
    var work := (l ^ r) & 0x00ff_00ff;
    var r, l := r ^ work, (l ^ work).RotateLeft(6);
    var work := (l ^ r) & 0x3333_3333;
    var r, l := r ^ work, (l ^ work).RotateLeft(18);
    var work := (l ^ r) & 0xffff_0000;
    var r, l := r ^ work, (l ^ work).RotateLeft(20);
    var work := (l ^ r) & 0xf0f0_f0f0;
    ((l ^ work).RotateRight(4), r ^ work)
  }

  // ----- bits, numbered from 1 at the left as in the standard

  predicate TestBit(w: Words, n: int) {
    if n <= 32 then HalfBit(w.0, n) else HalfBit(w.1, n - 32)
  }

  predicate HalfBit(x: bv32, n: int) {
    1 <= n <= 32 && (x << (n - 1)) & 0x8000_0000 != 0
  }

  /** Bit i of v is bit table(i) of w. */
  ghost predicate IsPermuted(table: int -> int, w: Words, v: Words) {
    forall i :: 1 <= i <= 64 ==> TestBit(v, i) == TestBit(w, table(i))
  }

  /** Table IP: 58 50 42 ... 2, 60 52 ... 4, ..., 63 55 ... 7. */
  function Ip(i: int): int {
    var row, column := (i - 1) / 8, (i - 1) % 8;
    (if row < 4 then 58 + 2 * row else 57 + 2 * (row - 4)) - 8 * column
  }

  /** Table IP^-1: 40 8 48 16 ... 32, 39 7 47 ... 31, ..., 33 1 41 ... 25. */
  function Fp(i: int): int {
    var row, column := (i - 1) / 8, (i - 1) % 8;
    (if column % 2 == 0 then 40 else 8) + 8 * (column / 2) - row
  }

  /** Bits n + 1 to n + 8 of v are the bits a to h of w. */
  predicate Row(v: Words, n: int, w: Words, a: int, b: int, c: int, d: int, e: int, f: int, g: int, h: int) {
    && TestBit(v, n + 1) == TestBit(w, a) && TestBit(v, n + 2) == TestBit(w, b)
    && TestBit(v, n + 3) == TestBit(w, c) && TestBit(v, n + 4) == TestBit(w, d)
    && TestBit(v, n + 5) == TestBit(w, e) && TestBit(v, n + 6) == TestBit(w, f)
    && TestBit(v, n + 7) == TestBit(w, g) && TestBit(v, n + 8) == TestBit(w, h)
  }

  lemma InitialLeft(w: Words)
    ensures Row(RotateDown(IPERM(w)), 0, w, 58, 50, 42, 34, 26, 18, 10, 2)
    ensures Row(RotateDown(IPERM(w)), 8, w, 60, 52, 44, 36, 28, 20, 12, 4)
    ensures Row(RotateDown(IPERM(w)), 16, w, 62, 54, 46, 38, 30, 22, 14, 6)
    ensures Row(RotateDown(IPERM(w)), 24, w, 64, 56, 48, 40, 32, 24, 16, 8)
  {
  }

  lemma InitialRight(w: Words)
    ensures Row(RotateDown(IPERM(w)), 32, w, 57, 49, 41, 33, 25, 17, 9, 1)
    ensures Row(RotateDown(IPERM(w)), 40, w, 59, 51, 43, 35, 27, 19, 11, 3)
    ensures Row(RotateDown(IPERM(w)), 48, w, 61, 53, 45, 37, 29, 21, 13, 5)
    ensures Row(RotateDown(IPERM(w)), 56, w, 63, 55, 47, 39, 31, 23, 15, 7)
  {
  }

  lemma FinalLeft(w: Words)
    ensures Row(Swap(FPERM(Swap(RotateUp(w)))), 0, w, 40, 8, 48, 16, 56, 24, 64, 32)
    ensures Row(Swap(FPERM(Swap(RotateUp(w)))), 8, w, 39, 7, 47, 15, 55, 23, 63, 31)
    ensures Row(Swap(FPERM(Swap(RotateUp(w)))), 16, w, 38, 6, 46, 14, 54, 22, 62, 30)
    ensures Row(Swap(FPERM(Swap(RotateUp(w)))), 24, w, 37, 5, 45, 13, 53, 21, 61, 29)
  {
  }

  lemma FinalRight(w: Words)
    ensures Row(Swap(FPERM(Swap(RotateUp(w)))), 32, w, 36, 4, 44, 12, 52, 20, 60, 28)
    ensures Row(Swap(FPERM(Swap(RotateUp(w)))), 40, w, 35, 3, 43, 11, 51, 19, 59, 27)
    ensures Row(Swap(FPERM(Swap(RotateUp(w)))), 48, w, 34, 2, 42, 10, 50, 18, 58, 26)
    ensures Row(Swap(FPERM(Swap(RotateUp(w)))), 56, w, 33, 1, 41, 9, 49, 17, 57, 25)
  {
  }

  lemma RowBits(
    v: Words, n: int, w: Words, a: int, b: int, c: int, d: int, e: int, f: int, g: int, h: int, table: int -> int)
    requires Row(v, n, w, a, b, c, d, e, f, g, h)
    requires table(n + 1) == a && table(n + 2) == b && table(n + 3) == c && table(n + 4) == d
    requires table(n + 5) == e && table(n + 6) == f && table(n + 7) == g && table(n + 8) == h
    ensures forall i :: n < i <= n + 8 ==> TestBit(v, i) == TestBit(w, table(i))
  {
    hide TestBit;
    forall i | n < i <= n + 8 ensures TestBit(v, i) == TestBit(w, table(i)) {
      var m := i - n;
      assert m == 1 || m == 2 || m == 3 || m == 4 || m == 5 || m == 6 || m == 7 || m == 8;
    }
  }

  /** IPERM is the table IP, up to the rotation. */
  lemma InitialPermutation(w: Words)
    ensures IsPermuted(Ip, w, RotateDown(IPERM(w)))
  {
    hide TestBit, Row, IPERM, RotateDown;
    var v := RotateDown(IPERM(w));
    InitialLeft(w);
    RowBits(v, 0, w, 58, 50, 42, 34, 26, 18, 10, 2, Ip);
    RowBits(v, 8, w, 60, 52, 44, 36, 28, 20, 12, 4, Ip);
    RowBits(v, 16, w, 62, 54, 46, 38, 30, 22, 14, 6, Ip);
    RowBits(v, 24, w, 64, 56, 48, 40, 32, 24, 16, 8, Ip);
    InitialRight(w);
    RowBits(v, 32, w, 57, 49, 41, 33, 25, 17, 9, 1, Ip);
    RowBits(v, 40, w, 59, 51, 43, 35, 27, 19, 11, 3, Ip);
    RowBits(v, 48, w, 61, 53, 45, 37, 29, 21, 13, 5, Ip);
    RowBits(v, 56, w, 63, 55, 47, 39, 31, 23, 15, 7, Ip);
  }

  /** FPERM, its halves swapped, is the table IP^-1, up to the rotation. */
  lemma FinalPermutation(w: Words)
    ensures IsPermuted(Fp, w, Swap(FPERM(Swap(RotateUp(w)))))
  {
    hide TestBit, Row, FPERM, RotateUp, Swap;
    var v := Swap(FPERM(Swap(RotateUp(w))));
    FinalLeft(w);
    RowBits(v, 0, w, 40, 8, 48, 16, 56, 24, 64, 32, Fp);
    RowBits(v, 8, w, 39, 7, 47, 15, 55, 23, 63, 31, Fp);
    RowBits(v, 16, w, 38, 6, 46, 14, 54, 22, 62, 30, Fp);
    RowBits(v, 24, w, 37, 5, 45, 13, 53, 21, 61, 29, Fp);
    FinalRight(w);
    RowBits(v, 32, w, 36, 4, 44, 12, 52, 20, 60, 28, Fp);
    RowBits(v, 40, w, 35, 3, 43, 11, 51, 19, 59, 27, Fp);
    RowBits(v, 48, w, 34, 2, 42, 10, 50, 18, 58, 26, Fp);
    RowBits(v, 56, w, 33, 1, 41, 9, 49, 17, 57, 25, Fp);
  }

  /** A block is its bits. */
  lemma SameBits(w: Words, v: Words)
    requires forall i :: 1 <= i <= 64 ==> TestBit(w, i) == TestBit(v, i)
    ensures w == v
  {
    hide HalfBit;
    forall i | 1 <= i <= 32 ensures HalfBit(w.0, i) == HalfBit(v.0, i) && HalfBit(w.1, i) == HalfBit(v.1, i) {
      assert TestBit(w, i) == TestBit(v, i);
      assert TestBit(w, i + 32) == TestBit(v, i + 32);
    }
    SameHalf(w.0, v.0);
    SameHalf(w.1, v.1);
  }

  lemma SameHalf(x: bv32, y: bv32)
    requires forall i :: 1 <= i <= 32 ==> HalfBit(x, i) == HalfBit(y, i)
    ensures x == y
  {
    hide HalfBit;
    SameByte1(x, y);
    SameByte2(x, y);
    SameByte3(x, y);
    SameByte4(x, y);
    Bytes(x, y);
  }

  lemma Bytes(x: bv32, y: bv32)
    requires x & 0xff00_0000 == y & 0xff00_0000 && x & 0x00ff_0000 == y & 0x00ff_0000
    requires x & 0x0000_ff00 == y & 0x0000_ff00 && x & 0x0000_00ff == y & 0x0000_00ff
    ensures x == y
  {
  }

  lemma SameByte1(x: bv32, y: bv32)
    requires HalfBit(x, 1) == HalfBit(y, 1) && HalfBit(x, 2) == HalfBit(y, 2)
    requires HalfBit(x, 3) == HalfBit(y, 3) && HalfBit(x, 4) == HalfBit(y, 4)
    requires HalfBit(x, 5) == HalfBit(y, 5) && HalfBit(x, 6) == HalfBit(y, 6)
    requires HalfBit(x, 7) == HalfBit(y, 7) && HalfBit(x, 8) == HalfBit(y, 8)
    ensures x & 0xff00_0000 == y & 0xff00_0000
  {
  }

  lemma SameByte2(x: bv32, y: bv32)
    requires HalfBit(x, 9) == HalfBit(y, 9) && HalfBit(x, 10) == HalfBit(y, 10)
    requires HalfBit(x, 11) == HalfBit(y, 11) && HalfBit(x, 12) == HalfBit(y, 12)
    requires HalfBit(x, 13) == HalfBit(y, 13) && HalfBit(x, 14) == HalfBit(y, 14)
    requires HalfBit(x, 15) == HalfBit(y, 15) && HalfBit(x, 16) == HalfBit(y, 16)
    ensures x & 0x00ff_0000 == y & 0x00ff_0000
  {
  }

  lemma SameByte3(x: bv32, y: bv32)
    requires HalfBit(x, 17) == HalfBit(y, 17) && HalfBit(x, 18) == HalfBit(y, 18)
    requires HalfBit(x, 19) == HalfBit(y, 19) && HalfBit(x, 20) == HalfBit(y, 20)
    requires HalfBit(x, 21) == HalfBit(y, 21) && HalfBit(x, 22) == HalfBit(y, 22)
    requires HalfBit(x, 23) == HalfBit(y, 23) && HalfBit(x, 24) == HalfBit(y, 24)
    ensures x & 0x0000_ff00 == y & 0x0000_ff00
  {
  }

  lemma SameByte4(x: bv32, y: bv32)
    requires HalfBit(x, 25) == HalfBit(y, 25) && HalfBit(x, 26) == HalfBit(y, 26)
    requires HalfBit(x, 27) == HalfBit(y, 27) && HalfBit(x, 28) == HalfBit(y, 28)
    requires HalfBit(x, 29) == HalfBit(y, 29) && HalfBit(x, 30) == HalfBit(y, 30)
    requires HalfBit(x, 31) == HalfBit(y, 31) && HalfBit(x, 32) == HalfBit(y, 32)
    ensures x & 0x0000_00ff == y & 0x0000_00ff
  {
  }

  lemma IpFp(i: int)
    requires 1 <= i <= 64
    ensures 1 <= Fp(i) <= 64 && Ip(Fp(i)) == i
  {
    var row, column := (i - 1) / 8, (i - 1) % 8;
    var half := column / 2;
    var row2 := if column % 2 == 0 then 4 + half else half;
    assert Fp(i) - 1 == 8 * row2 + 7 - row;
    assert (Fp(i) - 1) / 8 == row2 && (Fp(i) - 1) % 8 == 7 - row;
  }

  lemma FpIp(i: int)
    requires 1 <= i <= 64
    ensures 1 <= Ip(i) <= 64 && Fp(Ip(i)) == i
  {
    var row, column := (i - 1) / 8, (i - 1) % 8;
    var column2 := if row < 4 then 2 * row + 1 else 2 * (row - 4);
    assert Ip(i) - 1 == 8 * (7 - column) + column2;
    assert (Ip(i) - 1) / 8 == 7 - column && (Ip(i) - 1) % 8 == column2;
  }

  lemma Inverse(w: Words, v: Words, u: Words)
    requires (IsPermuted(Ip, w, v) && IsPermuted(Fp, v, u)) || (IsPermuted(Fp, w, v) && IsPermuted(Ip, v, u))
    ensures u == w
  {
    hide TestBit, Ip, Fp;
    forall i | 1 <= i <= 64 ensures TestBit(u, i) == TestBit(w, i) {
      IpFp(i);
      FpIp(i);
    }
    SameBits(u, w);
  }

  lemma Rotations(w: Words)
    ensures RotateUp(RotateDown(w)) == w
  {
  }

  /** FPERM with swapped halves undoes IPERM, and the other way round. */
  lemma PermutationsInverse(w: Words)
    ensures Swap(FPERM(Swap(IPERM(w)))) == w
    ensures IPERM(Swap(FPERM(Swap(w)))) == w
  {
    hide FPERM, IPERM, RotateUp, RotateDown, Swap, TestBit, IsPermuted;
    var v := IPERM(w);
    Rotations(v);
    InitialPermutation(w);
    FinalPermutation(RotateDown(v));
    Inverse(w, RotateDown(v), Swap(FPERM(Swap(v))));
    var x := Swap(FPERM(Swap(w)));
    Rotations(w);
    FinalPermutation(RotateDown(w));
    InitialPermutation(x);
    Inverse(RotateDown(w), x, RotateDown(IPERM(x)));
    Rotations(IPERM(x));
  }
}

/** Shifts, powers of two and bits: the part of Integer (crypto++/integer.h)
    that the exponent code reads.  A shift is defined by repeated doubling or
    halving, which keeps the proofs about it linear; ShlIsProduct and
    ShrIsDivision give the closed forms. */
module Powers {

  type byte = b: int | 0 <= b < 256

  function Abs(a: int): nat {
    if a >= 0 then a else -a
  }

  function Min(a: nat, b: nat): nat {
    if a <= b then a else b
  }

  lemma QuotientNonNegative(a: nat, b: nat)
    requires b > 0
    ensures a / b >= 0 && a == (a / b) * b + a % b
  {
  }

  /** q * 2^n */
  function Shl(q: int, n: nat): int {
    if n == 0 then q else 2 * Shl(q, n - 1)
  }

  function Pow2(n: nat): (p: int)
    ensures p > 0
  {
    if n == 0 then 1 else 2 * Pow2(n - 1)
  }

  /** e >> n */
  function Shr(e: nat, n: nat): nat {
    if n == 0 then e else Shr(e, n - 1) / 2
  }

  /** Bit i of e (Integer::GetBit). */
  function Bit(e: nat, i: nat): (b: nat)
    ensures b <= 1
  {
    Shr(e, i) % 2
  }

  /** e % 2^n */
  function Low(e: nat, n: nat): (r: nat)
    ensures r < Pow2(n)
  {
    if n == 0 then 0 else Low(e, n - 1) + if Bit(e, n - 1) == 1 then Pow2(n - 1) else 0
  }

  lemma {:induction false} ShlOne(n: nat)
    ensures Shl(1, n) == Pow2(n)
  {
    if n > 0 {
      ShlOne(n - 1);
    }
  }

  lemma {:induction false} ShlSum(a: int, b: int, n: nat)
    ensures Shl(a + b, n) == Shl(a, n) + Shl(b, n)
  {
    if n > 0 {
      ShlSum(a, b, n - 1);
    }
  }

  lemma {:induction false} ShlShl(q: int, a: nat, b: nat)
    ensures Shl(Shl(q, a), b) == Shl(q, a + b)
  {
    if b > 0 {
      ShlShl(q, a, b - 1);
    }
  }

  lemma {:induction false} ShlMonotone(a: int, b: int, n: nat)
    requires a <= b
    ensures Shl(a, n) <= Shl(b, n)
  {
    if n > 0 {
      ShlMonotone(a, b, n - 1);
    }
  }

  lemma {:induction false} ShlZero(n: nat)
    ensures Shl(0, n) == 0
  {
    if n > 0 {
      ShlZero(n - 1);
    }
  }

  /** For n >= 1 a shifted number is even and at least twice as large. */
  lemma ShlEven(q: nat, n: nat)
    requires n >= 1
    ensures Shl(q, n) % 2 == 0 && Shl(q, n) >= 2 * q
  {
    ShlStep(q, n - 1);
    hide Shl;
    ShlGrows(q, n - 1);
  }

  lemma ShlStep(q: int, n: nat)
    ensures Shl(q, n + 1) == 2 * Shl(q, n)
  {
  }

  lemma {:induction false} ShlGrows(q: nat, n: nat)
    ensures Shl(q, n) >= q
  {
    if n > 0 {
      ShlGrows(q, n - 1);
    }
  }

  lemma Pow2Even(n: nat)
    requires n >= 1
    ensures Pow2(n) % 2 == 0
  {
  }

  lemma {:induction false} Pow2Monotone(a: nat, b: nat)
    requires a <= b
    ensures Pow2(a) <= Pow2(b)
  {
    if a < b {
      Pow2Monotone(a, b - 1);
    }
  }

  lemma ShrStep(e: nat, n: nat)
    ensures Shr(e, 0) == e && Shr(e, n + 1) == Shr(e, n) / 2
  {
  }

  lemma {:induction false} ShrAdd(e: nat, a: nat, b: nat)
    ensures Shr(Shr(e, a), b) == Shr(e, a + b)
  {
    if b > 0 {
      ShrAdd(e, a, b - 1);
    }
  }

  /** A shift and the bits it drops make up the number. */
  lemma {:induction false} ShrLow(e: nat, n: nat)
    ensures e == Shl(Shr(e, n), n) + Low(e, n)
  {
    if n > 0 {
      ShrLow(e, n - 1);
      var s := Shr(e, n - 1);
      ShlShl(s / 2, 1, n - 1);
      assert Shl(s / 2, 1) == 2 * (s / 2) by {
        assert Shl(s / 2, 0) == s / 2;
      }
      ShlSum(2 * (s / 2), s % 2, n - 1);
      ShlOne(n - 1);
      ShlZero(n - 1);
    }
  }

  /** The defining property of quotient and remainder. */
  lemma ShrUnique(e: nat, n: nat, q: nat, r: nat)
    requires e == Shl(q, n) + r && r < Pow2(n)
    ensures Shr(e, n) == q && Low(e, n) == r
  {
    ShrLow(e, n);
    var s := Shr(e, n);
    ShlSum(s, q - s, n);
    ShlOne(n);
    if q > s {
      ShlMonotone(1, q - s, n);
    } else if q < s {
      ShlSum(1, -1, n);
      ShlZero(n);
      ShlMonotone(q - s, -1, n);
    }
  }

  lemma ShrZero(e: nat, n: nat)
    requires e < Pow2(n)
    ensures Shr(e, n) == 0 && Low(e, n) == e
  {
    ShlZero(n);
    ShrUnique(e, n, 0, e);
  }

  lemma {:induction false} ShlIsProduct(q: int, n: nat)
    ensures Shl(q, n) == q * Pow2(n)
  {
    if n > 0 {
      ShlIsProduct(q, n - 1);
      assert q * (2 * Pow2(n - 1)) == 2 * (q * Pow2(n - 1));
    }
  }

  lemma ShrIsDivision(e: nat, n: nat)
    ensures Shr(e, n) == e / Pow2(n) && Low(e, n) == e % Pow2(n)
  {
    var p := Pow2(n);
    var q, r := e / p, e % p;
    assert e == q * p + r;
    ShlIsProduct(q, n);
    NonNegativeQuotient(q, p, r);
    ShrUnique(e, n, q, r);
  }

  lemma NonNegativeQuotient(q: int, p: int, r: int)
    requires p > r >= 0 && q * p + r >= 0
    ensures q >= 0
  {
    assert q <= -1 ==> q * p <= -p;
  }

  /** Number of significant bits (Integer::BitCount). */
  function BitCount(e: nat): (n: nat)
    ensures e < Pow2(n)
    ensures n > 0 ==> e >= Pow2(n - 1)
  {
    if e == 0 then 0 else BitCount(e / 2) + 1
  }

  /** The least multiple of m that is at least c. */
  function RoundUp(c: nat, m: nat): (n: nat)
    requires m >= 1
    ensures c <= n < c + m
  {
    if c == 0 then 0 else if c <= m then m else RoundUp(c - m, m) + m
  }
}

/** Length octets and unsigned INTEGERs (crypto++/asn.cpp, crypto++/asn.h;
    sections 8.1.3, 8.3 and 10.1 of X.690). */
module AsnLength {
  import opened Powers
  import opened AsnBytes

  /** Bytes in an lword. */
  const LWORD: nat := 8

  /** The definite form that DERLengthEncode writes. */
  function DerLength(n: nat): seq<byte>
    requires n < Pow256(LWORD)
  {
    if n <= 0x7f then [n] else PrecisionLeast(n, LWORD); [0x80 + Precision(n)] + BigEndian(n, Precision(n))
  }

  /** What BERLengthDecode can report; rest is what it leaves unread. */
  datatype LengthResult =
    | Definite(length: nat, rest: seq<byte>)
    | Indefinite(rest: seq<byte>)
    | OutOfData
    | Overflow

  /** Reads k length bytes after the ones that gave acc. */
  function LongForm(acc: nat, k: nat, s: seq<byte>): LengthResult
    decreases k
  {
    if k == 0 then Definite(acc, s)
    else if acc >= Pow256(LWORD - 1) then Overflow
    else if s == [] then OutOfData
    else LongForm(256 * acc + s[0], k - 1, s[1..])
  }

  function ParseLength(s: seq<byte>): LengthResult {
    if s == [] then OutOfData
    else if s[0] < 0x80 then Definite(s[0], s[1..])
    else if s[0] == 0x80 then Indefinite(s[1..])
    else LongForm(0, s[0] - 0x80, s[1..])
  }

  /** The long form reads exactly the bytes whose value fits. */
  lemma {:induction false} LongFormValue(acc: nat, front: seq<byte>, s: seq<byte>, k: nat)
    requires acc == Value(front) && k <= |s|
    ensures LongForm(acc, k, s) ==
      if Value(front + s[..k]) < Pow256(LWORD) || k == 0 then Definite(Value(front + s[..k]), s[k..]) else Overflow
    decreases k
  {
    hide Value, Pow256;
    LwordStep();
    if k == 0 {
      assert front + s[..0] == front;
    } else {
      ValueSnoc(front, s[0]);
      assert front + s[..k] == (front + [s[0]]) + s[1..][..k - 1];
      if acc >= Pow256(LWORD - 1) {
        ValueGrows(front + [s[0]], s[1..][..k - 1]);
      } else {
        LongFormValue(256 * acc + s[0], front + [s[0]], s[1..], k - 1);
        assert s[1..][k - 1..] == s[k..];
        if k == 1 {
          assert s[1..][..0] == [];
        }
      }
    }
  }

  lemma LwordStep()
    ensures Pow256(LWORD) == 256 * Pow256(LWORD - 1)
  {
  }

  lemma {:induction false} ValueGrows(a: seq<byte>, b: seq<byte>)
    ensures Value(a + b) >= Value(a)
  {
    if b == [] {
      assert a + b == a;
    } else {
      ValueGrows(a, b[..|b| - 1]);
      assert (a + b)[..|a + b| - 1] == a + b[..|b| - 1];
    }
  }

  lemma {:induction false} LongFormShort(acc: nat, k: nat, s: seq<byte>)
    requires |s| < k
    ensures !LongForm(acc, k, s).Definite?
    decreases k
  {
    if acc < Pow256(LWORD - 1) && s != [] {
      LongFormShort(256 * acc + s[0], k - 1, s[1..]);
    }
  }

  /** Decoding an encoded length gives it back and leaves the rest alone. */
  lemma LengthRoundTrip(n: nat, rest: seq<byte>)
    requires n < Pow256(LWORD)
    ensures ParseLength(DerLength(n) + rest) == Definite(n, rest)
  {
    hide Pow256, Value, BigEndian, Precision, LongForm;
    var e := DerLength(n) + rest;
    NothingIsZero();
    if n > 0x7f {
      PrecisionLeast(n, LWORD);
      var k := Precision(n);
      var digits := BigEndian(n, k);
      assert e == [0x80 + k] + digits + rest;
      assert e[1..] == digits + rest;
      ValueBigEndian(n, k);
      LongFormValue(0, [], e[1..], k);
      assert [] + e[1..][..k] == digits;
      assert e[1..][k..] == rest;
      PrecisionPositive(n);
    } else {
      assert e[1..] == rest;
    }
  }

  lemma PrecisionPositive(n: nat)
    requires n > 0
    ensures Precision(n) > 0
  {
  }

  /** Nothing shorter decodes to the same length. */
  lemma LengthShortest(s: seq<byte>)
    requires ParseLength(s).Definite?
    ensures ParseLength(s).length < Pow256(LWORD)
    ensures |DerLength(ParseLength(s).length)| <= |s| - |ParseLength(s).rest|
    ensures |ParseLength(s).rest| < |s| && ParseLength(s).rest == s[|s| - |ParseLength(s).rest|..]
  {
    hide Pow256, Value;
    SmallLength();
    if s[0] > 0x80 {
      var k := s[0] - 0x80;
      if |s[1..]| < k {
        LongFormShort(0, k, s[1..]);
      } else {
        NothingIsZero();
        LongFormValue(0, [], s[1..], k);
        var digits := [] + s[1..][..k];
        ValueBound(digits);
        PrecisionLeast(Value(digits), k);
        assert s[1..][k..] == s[k + 1..];
      }
    }
  }

  lemma NothingIsZero()
    ensures Value([]) == 0
  {
  }

  /** The lengths 127, 128 and 256. */
  lemma LengthOctets()
    ensures Pow256(LWORD) > 256
    ensures DerLength(127) == [0x7f] && DerLength(128) == [0x81, 0x80] && DerLength(256) == [0x82, 1, 0]
  {
    LwordRange();
    hide Pow256;
    assert Precision(0) == 0 && Precision(1) == 1 && Precision(128) == 1 && Precision(256) == 2;
    assert BigEndian(0, 0) == [] && BigEndian(128, 1) == [0x80] && BigEndian(1, 1) == [1];
    assert BigEndian(256, 2) == [1, 0];
  }

  /** Lengths have 64 bits. */
  lemma LwordRange()
    ensures Pow256(LWORD) == 0x1_0000_0000_0000_0000
  {
    assert Pow256(0) == 1;
    assert Pow256(2) == 0x1_0000;
    assert Pow256(4) == 0x1_0000_0000;
    assert Pow256(6) == 0x1_0000_0000_0000;
  }

  lemma SmallLength()
    ensures Pow256(LWORD) > 0xff
  {
    Pow256Monotone(1, LWORD);
    assert Pow256(0) == 1;
  }

  /** DERLengthEncode. */
  method DERLengthEncode(bt: Stream, length: nat) returns (i: nat)
    requires length < Pow256(LWORD)
    modifies bt`bytes
    ensures bt.bytes == old(bt.bytes) + DerLength(length) && i == |DerLength(length)|
  {
    hide Pow256, Precision, BigEndian, ShiftBytes;
    if length <= 0x7f {
      bt.Put([length]);
      i := 1;
    } else {
      PrecisionLeast(length, LWORD);
      var precision := Precision(length);
      bt.Put([0x80 + precision]);
      i := 1;
      var j := precision;
      ghost var start := bt.bytes;
      while j > 0
        invariant 0 <= j <= precision && i == 1 + precision - j
        invariant bt.bytes == start + BigEndian(length, precision)[..precision - j]
      {
        ByteAt(length, precision, j - 1);
        bt.Put([ShiftBytes(length, j - 1) % 256]);
        i := i + 1;
        j := j - 1;
      }
    }
  }

  /** n >> (8 * k) */
  function ShiftBytes(n: nat, k: nat): nat {
    if k == 0 then n else ShiftBytes(n / 256, k - 1)
  }

  lemma {:induction false} ByteAt(n: nat, k: nat, i: nat)
    requires i < k
    ensures BigEndian(n, k)[k - 1 - i] == ShiftBytes(n, i) % 256
  {
    if i > 0 {
      ByteAt(n / 256, k - 1, i - 1);
    }
  }

  /** BERLengthDecode on the readable bytes of a stream. */
  method BERLengthDecode(bt: Stream) returns (r: LengthResult)
    modifies bt
    ensures r == ParseLength(old(bt.Visible()))
    ensures r.Definite? || r.Indefinite? ==>
              && bt.Visible() == r.rest && |r.rest| < |old(bt.Visible())|
              && Charged(old(bt.bytes), old(bt.limits), bt.bytes, bt.limits, |old(bt.Visible())| - |r.rest|)
  {
    ghost var s := bt.Visible();
    ghost var b0, l0 := bt.bytes, bt.limits;
    var b := bt.Take(1);
    if |b| == 0 {
      return OutOfData;
    }
    if b[0] < 0x80 {
      return Definite(b[0], bt.Visible());
    }
    var lengthBytes: nat := b[0] - 0x80;
    if lengthBytes == 0 {
      return Indefinite(bt.Visible());
    }
    var length: nat := 0;
    while lengthBytes > 0
      invariant LongForm(length, lengthBytes, bt.Visible()) == ParseLength(s)
      invariant |bt.Visible()| < |s|
      invariant Charged(b0, l0, bt.bytes, bt.limits, |s| - |bt.Visible()|)
    {
      if length >= Pow256(LWORD - 1) {
        return Overflow;
      }
      ghost var b1, l1, left := bt.bytes, bt.limits, |bt.Visible()|;
      b := bt.Take(1);
      if |b| == 0 {
        return OutOfData;
      }
      ChargedTwice(b0, l0, b1, l1, bt.bytes, bt.limits, |s| - left, 1);
      length := 256 * length + b[0];
      lengthBytes := lengthBytes - 1;
    }
    return Definite(length, bt.Visible());
  }
}

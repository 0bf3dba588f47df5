/** DEREncodeUnsigned and BERDecodeUnsigned (crypto++/asn.h), for a word of any
    number of bytes. */
module AsnInteger {
  import opened Powers
  import opened AsnBytes
  import opened AsnLength

  const BOOLEAN: byte := 0x01

  /** The content octets of a non-negative INTEGER: as few as keep the sign bit
      of the first one clear. */
  function Content(w: nat): (c: seq<byte>)
    ensures |c| >= 1
  {
    if w == 0 then
      [0]
    else
      var d := BigEndian(w, Precision(w));
      if d[0] >= 0x80 then [0] + d else d
  }

  function ContentFor(w: nat, tag: byte): seq<byte> {
    if tag != BOOLEAN then Content(w) else if w != 0 then [0xff] else [0]
  }

  lemma ContentValue(w: nat)
    ensures Value(Content(w)) == w
  {
    hide Precision;
    if w == 0 {
      assert [0 as byte][..0] == [];
    } else {
      var k := Precision(w);
      var d := BigEndian(w, k);
      ValueBigEndian(w, k);
      ValueLeadingZero([0] + d);
      assert ([0] + d)[1..] == d;
    }
  }

  lemma ContentLength(w: nat, size: nat)
    requires w < Pow256(size) && size >= 1
    ensures |Content(w)| <= size + 1
  {
    PrecisionLeast(w, size);
  }

  /** No shorter content octets with a clear sign bit have the same value. */
  lemma ContentShortest(c: seq<byte>)
    requires c != [] && c[0] < 0x80
    ensures |Content(Value(c))| <= |c|
  {
    hide Value, Precision;
    var w := Value(c);
    if w != 0 {
      var k := Precision(w);
      var d := BigEndian(w, k);
      ValueBound(c);
      PrecisionLeast(w, |c|);
      if k == |c| {
        BigEndianValue(c);
      }
    }
  }

  /** What an encoded word looks like. */
  function EncodeUnsigned(w: nat, tag: byte): seq<byte>
    requires |ContentFor(w, tag)| < Pow256(LWORD)
  {
    [tag] + DerLength(|ContentFor(w, tag)|) + ContentFor(w, tag)
  }

  datatype WordResult = Word(w: nat, rest: seq<byte>) | DecodeError

  /** What a decoder for words of the given size accepts.  An indefinite length
      is rejected. */
  function ParseUnsigned(s: seq<byte>, size: nat, tag: byte, minValue: nat, maxValue: nat): WordResult {
    if s == [] || s[0] != tag then DecodeError else
    match ParseLength(s[1..])
    case Definite(n, rest) =>
      if |rest| < n || Value(rest[..n]) >= Pow256(size) then DecodeError
      else if minValue <= Value(rest[..n]) <= maxValue then Word(Value(rest[..n]), rest[n..])
      else DecodeError
    case _ => DecodeError
  }

  /** Words round-trip; a BOOLEAN does exactly when it is 0 or 255, since every
      other word is written as 255. */
  lemma WordRoundTrip(w: nat, size: nat, tag: byte, minValue: nat, maxValue: nat, rest: seq<byte>)
    requires size >= 1 && size + 1 < Pow256(LWORD)
    requires w < Pow256(size) && minValue <= w <= maxValue
    ensures |ContentFor(w, tag)| < Pow256(LWORD)
    ensures ParseUnsigned(EncodeUnsigned(w, tag) + rest, size, tag, minValue, maxValue) == Word(w, rest)
        <==> tag != BOOLEAN || w == 0 || w == 0xff
  {
    hide Value, DerLength, Content, ParseLength;
    ContentLength(w, size);
    SmallLength();
    var c := ContentFor(w, tag);
    var e := EncodeUnsigned(w, tag) + rest;
    assert e[1..] == DerLength(|c|) + (c + rest);
    LengthRoundTrip(|c|, c + rest);
    assert (c + rest)[..|c|] == c && (c + rest)[|c|..] == rest;
    if tag == BOOLEAN {
      OneByte(c[0]);
      Pow256Monotone(1, size);
      assert c == [c[0]];
    } else {
      ContentValue(w);
    }
  }

  lemma OneByte(b: byte)
    ensures Value([b]) == b
  {
    ValueSnoc([], b);
    assert [] + [b] == [b];
  }

  /** INTEGER 127, 128 and 256, and BOOLEAN true. */
  lemma WordOctets()
    ensures Pow256(LWORD) > 2
    ensures Content(127) == [0x7f] && Content(128) == [0, 0x80] && Content(256) == [1, 0]
    ensures EncodeUnsigned(128, 2) == [2, 2, 0, 0x80] && EncodeUnsigned(1, 1) == [1, 1, 0xff]
  {
    SmallLength();
    hide Pow256;
    SmallNumbers();
    hide Precision, BigEndian;
  }

  lemma SmallNumbers()
    ensures Precision(127) == 1 && Precision(128) == 1 && Precision(256) == 2
    ensures BigEndian(127, 1) == [0x7f] && BigEndian(128, 1) == [0x80] && BigEndian(256, 2) == [1, 0]
  {
    hide Pow256;
    assert Precision(0) == 0 && Precision(1) == 1;
    assert BigEndian(0, 0) == [] && BigEndian(1, 1) == [1];
  }

  /** A BOOLEAN of 1 comes back as 255. */
  lemma BooleanChanged()
    ensures ParseUnsigned(EncodeUnsigned(1, BOOLEAN), 1, BOOLEAN, 0, 255) == Word(255, [])
  {
    SmallLength();
    assert Pow256(1) == 256 * Pow256(0);
    OneByte(255);
    var s := EncodeUnsigned(1, BOOLEAN);
    assert s == [BOOLEAN] + [1] + [255];
    assert s[1..] == [1, 255] && s[1..][1..] == [255] && [255 as byte][..1] == [255];
  }

  /** The content octets of an encoding. */
  function ContentOf(s: seq<byte>): seq<byte>
    requires s != [] && ParseLength(s[1..]).Definite? && ParseLength(s[1..]).length <= |ParseLength(s[1..]).rest|
  {
    ParseLength(s[1..]).rest[..ParseLength(s[1..]).length]
  }

  lemma {:induction false} PrecisionMonotone(a: nat, b: nat)
    requires a <= b
    ensures Precision(a) <= Precision(b)
  {
    PrecisionLeast(a, Precision(b));
  }

  lemma LengthMonotone(a: nat, b: nat)
    requires a <= b < Pow256(LWORD)
    ensures |DerLength(a)| <= |DerLength(b)|
  {
    PrecisionMonotone(a, b);
  }

  /** Of all encodings the decoder accepts for a word, with content whose sign
      bit is clear, the encoder's is the shortest. */
  lemma EncodingShortest(s: seq<byte>, size: nat, tag: byte, minValue: nat, maxValue: nat)
    requires ParseUnsigned(s, size, tag, minValue, maxValue).Word?
    requires ContentOf(s) != [] && ContentOf(s)[0] < 0x80
    ensures var r := ParseUnsigned(s, size, tag, minValue, maxValue);
      && |ContentFor(r.w, tag)| < Pow256(LWORD)
      && |EncodeUnsigned(r.w, tag)| <= |s| - |r.rest|
  {
    hide DerLength, Value, Content, LongForm, Pow256;
    var c, n := ContentOf(s), ParseLength(s[1..]).length;
    LengthShortest(s[1..]);
    ContentShortest(c);
    LengthMonotone(|ContentFor(Value(c), tag)|, n);
  }

  /** Both conditions are needed: no content at all is accepted for zero, and a
      set sign bit for 128. */
  lemma ShorterAccepted()
    ensures ParseUnsigned([2, 0], 4, 2, 0, 255) == Word(0, []) && |EncodeUnsigned(0, 2)| == 3
    ensures ParseUnsigned([2, 1, 0x80], 4, 2, 0, 255) == Word(0x80, []) && |Content(0x80)| == 2
  {
    SmallLength();
    OneByte(0x80);
    assert Pow256(4) >= 256 by {
      Pow256Monotone(1, 4);
      assert Pow256(1) == 256 * Pow256(0);
    }
    var zero: seq<byte>, high: seq<byte> := [2, 0], [2, 1, 0x80];
    assert zero[1..] == [0] && high[1..] == [1, 0x80] && high[1..][1..] == [0x80] && high[2..][..1] == [0x80];
    assert BigEndian(0x80, 1) == BigEndian(0, 0) + [0x80];
  }

  // ----- the loops

  /** Dropping leading zero bytes of a fixed-width number. */
  lemma {:induction false} BigEndianSuffix(n: nat, k: nat, j: nat)
    requires j <= k
    ensures BigEndian(n, k)[k - j..] == BigEndian(n, j)
  {
    if j > 0 {
      BigEndianSuffix(n / 256, k - 1, j - 1);
      var s := BigEndian(n / 256, k - 1);
      assert (s + [n % 256])[k - j..] == s[k - j..] + [n % 256];
    } else {
      assert BigEndian(n, k)[k..] == [];
    }
  }

  lemma {:induction false} TopByteZero(n: nat, k: nat)
    requires k >= 1 && n < Pow256(k)
    ensures BigEndian(n, k)[0] == 0 <==> n < Pow256(k - 1)
  {
    if k > 1 {
      TopByteZero(n / 256, k - 1);
    }
  }

  method DEREncodeUnsigned(out: Stream, w: nat, size: nat, tag: byte) returns (total: nat)
    requires size >= 1 && w < Pow256(size) && size + 1 < Pow256(LWORD)
    modifies out`bytes
    ensures |ContentFor(w, tag)| < Pow256(LWORD)
    ensures out.bytes == old(out.bytes) + EncodeUnsigned(w, tag) && total == |EncodeUnsigned(w, tag)|
  {
    hide Value, Pow256, DerLength, ContentFor;
    ContentFits(w, size, tag);
    var buf, bc := FillBuffer(w, size, tag);
    out.Put([tag]);
    var lengthBytes := DERLengthEncode(out, bc);
    out.Put(buf[size + 1 - bc..]);
    total := 1 + lengthBytes + bc;
  }

  lemma ContentFits(w: nat, size: nat, tag: byte)
    requires size >= 1 && w < Pow256(size) && size + 1 < Pow256(LWORD)
    ensures |ContentFor(w, tag)| < Pow256(LWORD)
  {
    ContentLength(w, size);
    SmallLength();
  }

  /** The buffer's last bc bytes are the content octets. */
  method FillBuffer(w: nat, size: nat, tag: byte) returns (buf: array<byte>, bc: nat)
    requires size >= 1 && w < Pow256(size)
    ensures fresh(buf) && buf.Length == size + 1 && 1 <= bc <= size + 1
    ensures buf[size + 1 - bc..] == ContentFor(w, tag)
  {
    hide Pow256, ShiftBytes, Content;
    buf := new byte[size + 1](_ => 0);
    if tag == BOOLEAN {
      buf[size] := if w != 0 then 0xff else 0;
      bc := 1;
    } else {
      buf[0] := 0;
      for i := 0 to size
        invariant buf[0] == 0
        invariant forall k :: 0 <= k < i ==> buf[k + 1] == BigEndian(w, size)[k]
      {
        ByteAt(w, size, size - 1 - i);
        buf[i + 1] := ShiftBytes(w, size - 1 - i) % 256;
      }
      bc := TrimBuffer(buf, w, size);
    }
  }

  /** The trimming of the buffer: how many of its last bytes to send. */
  method TrimBuffer(buf: array<byte>, w: nat, size: nat) returns (bc: nat)
    requires size >= 1 && buf.Length == size + 1 && w < Pow256(size)
    requires buf[0] == 0 && forall k :: 0 <= k < size ==> buf[k + 1] == BigEndian(w, size)[k]
    ensures 1 <= bc <= size + 1 && buf[size + 1 - bc..] == Content(w)
  {
    hide Pow256, BigEndian, Precision, Content;
    bc := size;
    while bc > 1 && buf[size + 1 - bc] == 0
      invariant 1 <= bc <= size && w < Pow256(bc)
    {
      BigEndianSuffix(w, size, bc);
      assert BigEndian(w, size)[size - bc..][0] == BigEndian(w, size)[size - bc];
      TopByteZero(w, bc);
      bc := bc - 1;
    }
    BigEndianSuffix(w, size, bc);
    assert buf[size + 1 - bc..] == BigEndian(w, size)[size - bc..];
    TopByteZero(w, bc);
    LastBytes(w, bc);
    if buf[size + 1 - bc] >= 0x80 {
      assert bc < size ==> buf[size - bc] == BigEndian(w, size)[size - bc - 1];
      ZerosAbove(w, size, bc);
      assert buf[size - bc..] == [0] + buf[size + 1 - bc..];
      bc := bc + 1;
    }
  }

  /** The bytes above the significant ones are zero. */
  lemma ZerosAbove(w: nat, size: nat, bc: nat)
    requires 1 <= bc <= size && w < Pow256(bc)
    ensures bc < size ==> BigEndian(w, size)[size - bc - 1] == 0
  {
    hide Pow256, BigEndian;
    if bc < size {
      BigEndianSuffix(w, size, bc + 1);
      assert BigEndian(w, size)[size - bc - 1..][0] == BigEndian(w, size)[size - bc - 1];
      Pow256Monotone(bc, bc + 1);
      TopByteZero(w, bc + 1);
    }
  }

  lemma LastBytes(w: nat, bc: nat)
    requires bc >= 1 && w < Pow256(bc)
    requires bc == 1 || w >= Pow256(bc - 1)
    ensures var d := BigEndian(w, bc); Content(w) == if d[0] >= 0x80 then [0] + d else d
  {
    PrecisionLeast(w, bc);
    if w == 0 {
      assert BigEndian(0, 1) == [0] by { assert BigEndian(0, 0) == []; }
    } else {
      var k := Precision(w);
      if k < bc {
        Pow256Monotone(k, bc - 1);
      }
    }
  }

  /** BERDecodeUnsigned. */
  method BERDecodeUnsigned(bt: Stream, size: nat, tag: byte, minValue: nat, maxValue: nat) returns (r: WordResult)
    requires size >= 1
    modifies bt
    ensures r == ParseUnsigned(old(bt.Visible()), size, tag, minValue, maxValue)
    ensures r.Word? ==> bt.Visible() == r.rest
  {
    hide ParseLength, Pow256, Value;
    ghost var s := bt.Visible();
    var b := bt.Take(1);
    if |b| == 0 || b[0] != tag {
      return DecodeError;
    }
    assert bt.Visible() == s[1..];
    var length := BERLengthDecode(bt);
    if !length.Definite? {
      return DecodeError;
    }
    var bc := length.length;
    ghost var rest := bt.Visible();
    var buf := bt.Take(bc);
    if |buf| != bc {
      return DecodeError;
    }
    assert buf == rest[..bc] && bt.Visible() == rest[bc..];
    assert ParseLength(s[1..]) == Definite(bc, rest);
    var ptr: seq<byte> := buf;
    while |ptr| > size && ptr[0] == 0
      invariant Value(ptr) == Value(buf) && bt.Visible() == rest[bc..]
      decreases |ptr|
    {
      ValueLeadingZero(ptr);
      ptr := ptr[1..];
    }
    if |ptr| > size {
      TooLong(ptr, size);
      return DecodeError;
    }
    var w := 0;
    NothingIsZero();
    for i := 0 to |ptr|
      invariant w == Value(ptr[..i]) && bt.Visible() == rest[bc..]
    {
      ValueSnoc(ptr[..i], ptr[i]);
      assert ptr[..i + 1] == ptr[..i] + [ptr[i]];
      w := 256 * w + ptr[i];
    }
    assert ptr[..|ptr|] == ptr;
    ValueBound(ptr);
    Pow256Monotone(|ptr|, size);
    if w < minValue || w > maxValue {
      return DecodeError;
    }
    return Word(w, bt.Visible());
  }

  lemma TooLong(s: seq<byte>, size: nat)
    requires |s| > size && s[0] != 0
    ensures Value(s) >= Pow256(size)
  {
    hide Value, Pow256;
    ValueTop(s);
    Pow256Monotone(size, |s| - 1);
    AtLeast(s[0], Pow256(|s| - 1));
  }

  lemma AtLeast(k: int, p: int)
    requires k >= 1 && p > 0
    ensures k * p >= p
  {
  }
}

/** Object identifiers (crypto++/asn.cpp; section 8.19 of X.690). */
module AsnOid {
  import opened Powers
  import opened AsnBytes
  import opened AsnLength

  const OBJECT_IDENTIFIER: byte := 0x06

  /** One more than the largest word32. */
  const WORD32: nat := 0x1_0000_0000

  lemma Word32Range()
    ensures WORD32 == Pow2(32)
  {
    assert Pow2(8) == 256 by {
      assert Pow2(4) == 16;
    }
    assert Pow2(16) == 256 * Pow2(8) by {
      assert Pow2(12) == 16 * Pow2(8);
    }
    assert Pow2(24) == 256 * Pow2(16) by {
      assert Pow2(20) == 16 * Pow2(16);
    }
    assert Pow2(28) == 16 * Pow2(24);
  }

  // ----- one arc in base 128

  /** The continued digits of u, most significant first. */
  function High(u: nat): (s: seq<byte>)
    ensures forall i :: 0 <= i < |s| ==> s[i] >= 0x80
  {
    if u == 0 then [] else High(u / 128) + [0x80 + u % 128]
  }

  function EncodeArc(v: nat): seq<byte> {
    High(v / 128) + [v % 128]
  }

  datatype ArcResult = Arc(v: nat, rest: seq<byte>) | ArcError

  /** DecodeValue, with the value of the digits read so far. */
  function ParseArc(acc: nat, s: seq<byte>): (r: ArcResult)
    ensures r.Arc? ==> |r.rest| < |s| && r.rest == s[|s| - |r.rest|..] && r.v < WORD32
    decreases |s|
  {
    if s == [] || acc >= WORD32 / 128 then ArcError
    else if s[0] < 0x80 then Arc(128 * acc + s[0], s[1..])
    else ParseArc(128 * acc + s[0] - 0x80, s[1..])
  }

  /** The value of base-128 digits that follow acc. */
  function Base128(acc: nat, s: seq<byte>): (v: nat)
    ensures v >= acc
    decreases s
  {
    if s == [] then acc else Base128(128 * acc + s[0] % 128, s[1..])
  }

  ghost predicate Terminated(s: seq<byte>) {
    |s| >= 1 && s[|s| - 1] < 0x80 && forall i :: 0 <= i < |s| - 1 ==> s[i] >= 0x80
  }

  /** The overflow test rejects exactly the strings whose value is too large. */
  lemma {:induction false} OverflowExact(acc: nat, s: seq<byte>, rest: seq<byte>)
    requires Terminated(s)
    ensures ParseArc(acc, s + rest) == if Base128(acc, s) < WORD32 then Arc(Base128(acc, s), rest) else ArcError
    decreases |s|
  {
    hide ParseArc, Base128;
    var t := s + rest;
    assert t[1..] == s[1..] + rest;
    ParseArcStep(acc, t);
    Base128Digit(acc, s[0], s[1..]);
    assert s == [s[0]] + s[1..];
    if |s| == 1 {
      assert s[1..] == [] && [] + rest == rest;
    } else {
      OverflowExact(128 * acc + s[0] - 0x80, s[1..], rest);
    }
  }

  lemma Base128Digit(acc: nat, d: byte, tail: seq<byte>)
    ensures Base128(acc, [d] + tail) == Base128(128 * acc + d % 128, tail)
    ensures Base128(128 * acc + d % 128, []) == 128 * acc + d % 128
  {
    assert ([d] + tail)[1..] == tail;
  }

  lemma {:induction false} HighValue(u: nat, tail: seq<byte>)
    ensures Base128(0, High(u) + tail) == Base128(u, tail)
    decreases u
  {
    hide Base128;
    if u == 0 {
      assert [] + tail == tail;
    } else {
      var d: byte := 0x80 + u % 128;
      HighValue(u / 128, [d] + tail);
      assert High(u) + tail == High(u / 128) + ([d] + tail);
      Base128Digit(u / 128, d, tail);
    }
  }

  /** DecodeValue inverts EncodeValue on every word32. */
  lemma ArcRoundTrip(v: nat, rest: seq<byte>)
    requires v < WORD32
    ensures ParseArc(0, EncodeArc(v) + rest) == Arc(v, rest)
  {
    hide High;
    var last: byte := v % 128;
    HighValue(v / 128, [last]);
    OverflowExact(0, EncodeArc(v), rest);
    assert Base128(v / 128, [last]) == v by {
      assert [last][1..] == [];
    }
  }

  /** v >> (7 * k) */
  function ShiftSevens(v: nat, k: nat): nat {
    if k == 0 then v else ShiftSevens(v / 128, k - 1)
  }

  lemma {:induction false} HighDigit(u: nat, i: nat)
    requires i < |High(u)|
    ensures High(u)[|High(u)| - 1 - i] == 0x80 + ShiftSevens(u, i) % 128
    decreases i
  {
    if i > 0 {
      HighDigit(u / 128, i - 1);
    }
  }

  /** The loop's starting shift: whole groups of seven bits below the top one. */
  lemma {:induction false} GroupCount(v: nat)
    ensures var bits := BitCount(v);
      RoundUp(if bits >= 7 then bits else 7, 7) == 7 + 7 * |High(v / 128)|
    decreases v
  {
    if v < 128 {
      SmallBits(v);
    } else {
      GroupCount(v / 128);
      BitsOfQuotient(v);
    }
  }

  lemma SmallBits(v: nat)
    requires v < 128
    ensures BitCount(v) <= 7 && High(v / 128) == []
  {
    assert v / 2 < 64 && v / 2 / 2 < 32 && v / 2 / 2 / 2 < 16;
    assert BitCount(v / 2 / 2 / 2 / 2 / 2 / 2 / 2) == 0;
    assert BitCount(v / 2 / 2 / 2 / 2 / 2) <= 2;
    assert BitCount(v / 2 / 2 / 2) <= 4;
    assert BitCount(v / 2) <= 6;
  }

  lemma BitsOfQuotient(v: nat)
    requires v >= 128
    ensures BitCount(v) == BitCount(v / 128) + 7 && BitCount(v / 128) >= 1
  {
    assert v / 2 / 2 / 2 / 2 / 2 / 2 / 2 == v / 128;
    assert BitCount(v / 2 / 2 / 2 / 2 / 2) == BitCount(v / 128) + 2;
    assert BitCount(v / 2 / 2 / 2) == BitCount(v / 128) + 4;
    assert BitCount(v / 2) == BitCount(v / 128) + 6;
  }

  method EncodeValue(bt: Stream, v: nat)
    modifies bt`bytes
    ensures bt.bytes == old(bt.bytes) + EncodeArc(v)
  {
    hide High;
    var bits := BitCount(v);
    GroupCount(v);
    var i := RoundUp(if bits >= 7 then bits else 7, 7) - 7;
    ghost var k := |High(v / 128)|;
    while i != 0
      invariant 0 <= i <= 7 * k && i == 7 * (i / 7)
      invariant bt.bytes == old(bt.bytes) + High(v / 128)[..k - i / 7]
    {
      HighDigit(v / 128, i / 7 - 1);
      assert ShiftSevens(v, i / 7) == ShiftSevens(v / 128, i / 7 - 1);
      bt.Put([0x80 + ShiftSevens(v, i / 7) % 128]);
      i := i - 7;
    }
    bt.Put([v % 128]);
  }

  method DecodeValue(bt: Stream) returns (r: ArcResult, i: nat)
    modifies bt
    ensures r == ParseArc(0, old(bt.Visible()))
    ensures r.Arc? ==> bt.Visible() == r.rest && i == |old(bt.Visible())| - |r.rest|
  {
    hide ParseArc;
    ghost var s := bt.Visible();
    i := 0;
    var v: nat := 0;
    while true
      invariant ParseArc(v, bt.Visible()) == ParseArc(0, s)
      invariant i <= |s| && bt.Visible() == s[i..]
      decreases |s| - i
    {
      ParseArcStep(v, bt.Visible());
      var b := bt.Take(1);
      if |b| == 0 {
        return ArcError, i;
      }
      i := i + 1;
      if v >= WORD32 / 128 {
        return ArcError, i;
      }
      v := 128 * v + b[0] % 128;
      if b[0] < 0x80 {
        return Arc(v, bt.Visible()), i;
      }
    }
  }

  lemma ParseArcStep(acc: nat, s: seq<byte>)
    ensures s == [] || acc >= WORD32 / 128 ==> ParseArc(acc, s) == ArcError
    ensures s != [] && acc < WORD32 / 128 ==>
              var v := 128 * acc + s[0] % 128;
              ParseArc(acc, s) == if s[0] < 0x80 then Arc(v, s[1..]) else ParseArc(v, s[1..])
  {
  }

  // ----- whole identifiers

  function EncodeArcs(arcs: seq<nat>): seq<byte> {
    if arcs == [] then [] else EncodeArc(arcs[0]) + EncodeArcs(arcs[1..])
  }

  /** The content octets: two arcs share the first one. */
  function OidContent(arcs: seq<nat>): seq<byte>
    requires |arcs| >= 2
  {
    [(arcs[0] * 40 + arcs[1]) % 256] + EncodeArcs(arcs[2..])
  }

  function EncodeOid(arcs: seq<nat>): seq<byte>
    requires |arcs| >= 2 && |OidContent(arcs)| < Pow256(LWORD)
  {
    [OBJECT_IDENTIFIER] + DerLength(|OidContent(arcs)|) + OidContent(arcs)
  }

  datatype OidResult = Arcs(arcs: seq<nat>, rest: seq<byte>) | OidError

  /** The loop of BERDecode: arcs until exactly length bytes are used. */
  function ParseArcs(length: nat, s: seq<byte>): OidResult
    decreases length
  {
    if length == 0 then Arcs([], s)
    else
      match ParseArc(0, s)
      case ArcError => OidError
      case Arc(v, rest) =>
        if |s| - |rest| > length then OidError
        else
          match ParseArcs(length - (|s| - |rest|), rest)
          case OidError => OidError
          case Arcs(more, end) => Arcs([v] + more, end)
  }

  function ParseOid(s: seq<byte>): OidResult {
    if s == [] || s[0] != OBJECT_IDENTIFIER then OidError
    else
      match ParseLength(s[1..])
      case Definite(length, rest) =>
        if length < 1 || rest == [] then OidError
        else
          (match ParseArcs(length - 1, rest[1..])
           case OidError => OidError
           case Arcs(more, end) => Arcs([rest[0] / 40, rest[0] % 40] + more, end))
      case _ => OidError
  }

  lemma {:induction false} EncodeArcsSnoc(arcs: seq<nat>, v: nat)
    ensures EncodeArcs(arcs + [v]) == EncodeArcs(arcs) + EncodeArc(v)
  {
    if arcs == [] {
      assert ([] + [v])[1..] == [];
    } else {
      EncodeArcsSnoc(arcs[1..], v);
      assert (arcs + [v])[1..] == arcs[1..] + [v];
    }
  }

  ghost predicate Words(arcs: seq<nat>) {
    forall i :: 0 <= i < |arcs| ==> arcs[i] < WORD32
  }

  lemma {:induction false} ArcsRoundTrip(arcs: seq<nat>, rest: seq<byte>)
    requires Words(arcs)
    ensures ParseArcs(|EncodeArcs(arcs)|, EncodeArcs(arcs) + rest) == Arcs(arcs, rest)
  {
    hide ParseArc, EncodeArc, ParseArcs;
    ParseArcsStep(|EncodeArcs(arcs)|, EncodeArcs(arcs) + rest);
    if arcs == [] {
      assert [] + rest == rest;
    } else {
      var first, more := EncodeArc(arcs[0]), EncodeArcs(arcs[1..]);
      ArcRoundTrip(arcs[0], more + rest);
      ArcsRoundTrip(arcs[1..], rest);
      assert EncodeArcs(arcs) + rest == first + (more + rest);
      assert arcs == [arcs[0]] + arcs[1..];
      ArcNonEmpty(arcs[0]);
    }
  }

  lemma ArcNonEmpty(v: nat)
    ensures |EncodeArc(v)| >= 1
  {
  }

  /** An identifier round-trips exactly when its first two arcs fit the octet
      they share: the second below 40, and the combined number below 256. */
  lemma OidRoundTrip(arcs: seq<nat>, rest: seq<byte>)
    requires |arcs| >= 2 && Words(arcs) && |OidContent(arcs)| < Pow256(LWORD)
    ensures ParseOid(EncodeOid(arcs) + rest) == Arcs(arcs, rest)
        <==> arcs[1] < 40 && arcs[0] * 40 + arcs[1] < 256
  {
    hide ParseLength, DerLength, EncodeArcs, Pow256, ParseArcs;
    var c := OidContent(arcs);
    var first, more := c[0], EncodeArcs(arcs[2..]);
    var e := EncodeOid(arcs) + rest;
    assert e[1..] == DerLength(|c|) + (c + rest);
    LengthRoundTrip(|c|, c + rest);
    assert (c + rest)[1..] == more + rest;
    ArcsRoundTrip(arcs[2..], rest);
    assert ParseOid(e) == Arcs([first / 40, first % 40] + arcs[2..], rest);
    SameFirstArcs(arcs, first / 40, first % 40);
    SharedOctet(arcs[0], arcs[1], first);
  }

  lemma SameFirstArcs(arcs: seq<nat>, a: nat, b: nat)
    requires |arcs| >= 2
    ensures [a, b] + arcs[2..] == arcs <==> a == arcs[0] && b == arcs[1]
  {
    var decoded := [a, b] + arcs[2..];
    assert decoded[0] == a && decoded[1] == b;
    assert arcs == [arcs[0], arcs[1]] + arcs[2..];
  }

  /** What splitting the shared octet gives back. */
  lemma SharedOctet(a: nat, b: nat, first: byte)
    requires first == (a * 40 + b) % 256
    ensures first / 40 == a && first % 40 == b <==> b < 40 && a * 40 + b < 256
  {
  }

  /** 1.2.840.113549 is 06 06 2A 86 48 86 F7 0D. */
  lemma OidOctets()
    ensures |OidContent([1, 2, 840, 113549])| < Pow256(LWORD)
    ensures EncodeOid([1, 2, 840, 113549]) == [0x06, 0x06, 0x2a, 0x86, 0x48, 0x86, 0xf7, 0x0d]
  {
    SmallLength();
    hide Pow256;
    var arcs, more := [1, 2, 840, 113549], [840, 113549];
    assert arcs[2..] == more && more[1..] == [113549] && [113549 as nat][1..] == [];
    assert EncodeArc(840) == [0x86, 0x48] by {
      assert High(0) == [] && High(6) == [0x86];
    }
    assert EncodeArc(113549) == [0x86, 0xf7, 0x0d] by {
      assert High(0) == [] && High(6) == [0x86] && High(887) == [0x86, 0xf7];
    }
    assert EncodeArcs([]) == [];
    assert EncodeArcs([113549]) == [0x86, 0xf7, 0x0d];
    assert EncodeArcs(more) == [0x86, 0x48] + [0x86, 0xf7, 0x0d];
  }

  /** The arcs 2, 40 come back as 3, 0. */
  lemma OidChanged()
    ensures |OidContent([2, 40])| < Pow256(LWORD)
    ensures ParseOid(EncodeOid([2, 40])) == Arcs([3, 0], [])
  {
    SmallLength();
    var arcs := [2, 40];
    assert arcs[2..] == [] && OidContent(arcs) == [120];
    hide Pow256;
    var e := EncodeOid(arcs);
    assert e == [e[0], 1, 120];
    assert e[1..] == [1, 120] && e[1..][1..] == [120] && e[2..][1..] == [];
  }

  class Oid {
    var values: seq<nat>

    constructor (values: seq<nat>)
      ensures this.values == values
    {
      this.values := values;
    }

    method DEREncode(bt: Stream)
      requires |values| >= 2 && |OidContent(values)| < Pow256(LWORD)
      modifies bt`bytes
      ensures bt.bytes == old(bt.bytes) + EncodeOid(values)
    {
      hide EncodeArc, EncodeArcs, DerLength, Pow256;
      var temp := new Stream([(values[0] * 40 + values[1]) % 256], []);
      NoArcs();
      assert values[2..2] == [];
      for i := 2 to |values|
        invariant temp.bytes == [(values[0] * 40 + values[1]) % 256] + EncodeArcs(values[2..i])
        invariant fresh(temp) && bt.bytes == old(bt.bytes)
      {
        EncodeArcsSnoc(values[2..i], values[i]);
        assert values[2..i + 1] == values[2..i] + [values[i]];
        EncodeValue(temp, values[i]);
      }
      assert values[2..|values|] == values[2..];
      bt.Put([OBJECT_IDENTIFIER]);
      var n := DERLengthEncode(bt, |temp.bytes|);
      bt.Put(temp.bytes);
    }

    method BERDecode(bt: Stream) returns (r: OidResult)
      modifies this, bt
      ensures r == ParseOid(old(bt.Visible()))
      ensures r.Arcs? ==> values == r.arcs && bt.Visible() == r.rest
    {
      hide ParseLength, ParseArc, ParseArcs;
      ghost var s := bt.Visible();
      var b := bt.Take(1);
      if |b| == 0 || b[0] != OBJECT_IDENTIFIER {
        return OidError;
      }
      assert bt.Visible() == s[1..];
      var length := BERLengthDecode(bt);
      if !length.Definite? || length.length < 1 {
        return OidError;
      }
      ghost var rest := bt.Visible();
      b := bt.Take(1);
      if |b| == 0 {
        return OidError;
      }
      assert bt.Visible() == rest[1..];
      var ok := DecodeArcs(bt, length.length - 1, b[0]);
      if !ok {
        return OidError;
      }
      return Arcs(values, bt.Visible());
    }

    /** The arcs after the first octet. */
    method DecodeArcs(bt: Stream, contentLeft: nat, first: byte) returns (ok: bool)
      modifies this, bt
      ensures var p := ParseArcs(contentLeft, old(bt.Visible()));
        && ok == p.Arcs?
        && (ok ==> values == [first / 40, first % 40] + p.arcs && bt.Visible() == p.rest)
    {
      hide ParseArc, ParseArcs;
      ghost var start := ParseArcs(contentLeft, bt.Visible());
      var length := contentLeft;
      values := [first / 40, first % 40];
      ghost var read: seq<nat> := [];
      while length > 0
        invariant values == [first / 40, first % 40] + read
        invariant Resumes(start, read, ParseArcs(length, bt.Visible()))
      {
        ghost var before := bt.Visible();
        var a, valueLen := DecodeValue(bt);
        ParseArcsStep(length, before);
        if a.ArcError? || valueLen > length {
          return false;
        }
        values := values + [a.v];
        read := read + [a.v];
        length := length - valueLen;
      }
      ParseArcsStep(0, bt.Visible());
      ok := true;
    }
  }

  /** Having read some arcs, the rest of the parse completes the whole. */
  ghost predicate Resumes(whole: OidResult, read: seq<nat>, remaining: OidResult) {
    match remaining
    case OidError => whole == OidError
    case Arcs(more, end) => whole == Arcs(read + more, end)
  }

  lemma ParseArcsStep(length: nat, s: seq<byte>)
    ensures length == 0 ==> ParseArcs(length, s) == Arcs([], s)
    ensures length > 0 ==>
              match ParseArc(0, s)
              case ArcError => ParseArcs(length, s) == OidError
              case Arc(v, rest) =>
                if |s| - |rest| > length then ParseArcs(length, s) == OidError
                else Resumes(ParseArcs(length, s), [v], ParseArcs(length - (|s| - |rest|), rest))
  {
  }

  lemma NoArcs()
    ensures EncodeArcs([]) == []
  {
  }
}

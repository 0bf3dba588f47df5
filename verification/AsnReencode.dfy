/** DERReencode (crypto++/asn.cpp): copies one BER object to a stream with its
    own length made definite and minimal, and so within an indefinite object
    those of its children; the content of a definite object is copied as it is
    (sections 8.1.3, 8.1.5 and 10.1 of X.690). */
module AsnReencode {
  import opened Powers
  import opened AsnBytes
  import opened AsnLength

  // ----- objects and their encodings

  datatype Form = DefiniteForm(octets: seq<byte>) | IndefiniteForm

  /** A tag-length-value object: Leaf where its content is just bytes, Node
      where it is a list of objects. */
  datatype Tlv =
    | Leaf(tag: byte, octets: seq<byte>, content: seq<byte>)
    | Node(tag: byte, form: Form, children: seq<Tlv>)

  function Encode(t: Tlv): (s: seq<byte>)
    ensures |s| >= 1
  {
    match t
    case Leaf(tag, octets, content) => [tag] + octets + content
    case Node(tag, DefiniteForm(octets), children) => [tag] + octets + EncodeAll(children)
    case Node(tag, IndefiniteForm, children) => [tag, 0x80] + EncodeAll(children) + [0, 0]
  }

  function EncodeAll(ts: seq<Tlv>): seq<byte> {
    if ts == [] then [] else Encode(ts[0]) + EncodeAll(ts[1..])
  }

  /** Bit 6 of an identifier octet. */
  predicate IsConstructed(tag: byte) {
    (tag / 0x20) % 2 == 1
  }

  predicate EndOfContent(s: seq<byte>) {
    |s| >= 2 && s[0] == 0 && s[1] == 0
  }

  predicate WellFormed(t: Tlv) {
    match t
    case Leaf(_, octets, content) => ParseLength(octets) == Definite(|content|, [])
    case Node(_, DefiniteForm(octets), children) =>
      ParseLength(octets) == Definite(|EncodeAll(children)|, []) && AllWellFormed(children)
    case Node(tag, IndefiniteForm, children) =>
      IsConstructed(tag) && AllWellFormed(children) && NoneIsEnd(children)
  }

  predicate AllWellFormed(ts: seq<Tlv>) {
    ts == [] || (WellFormed(ts[0]) && AllWellFormed(ts[1..]))
  }

  /** No object could be taken for the end of the content. */
  predicate NoneIsEnd(ts: seq<Tlv>) {
    ts == [] || (!EndOfContent(Encode(ts[0])) && NoneIsEnd(ts[1..]))
  }

  /** What the object says, apart from how its lengths are written. */
  datatype Shape = Bytes(tag: byte, content: seq<byte>) | List(tag: byte, shapes: seq<Shape>)

  function ShapeOf(t: Tlv): Shape {
    match t
    case Leaf(tag, _, content) => Bytes(tag, content)
    case Node(tag, _, children) => List(tag, ShapesOf(children))
  }

  function ShapesOf(ts: seq<Tlv>): seq<Shape> {
    if ts == [] then [] else [ShapeOf(ts[0])] + ShapesOf(ts[1..])
  }

  /** The lengths that get written fit an lword. */
  predicate Fits(t: Tlv)
    decreases t, 0
  {
    match t
    case Leaf(_, _, content) => |content| < Pow256(LWORD)
    case Node(_, DefiniteForm(_), children) => |EncodeAll(children)| < Pow256(LWORD)
    case Node(_, IndefiniteForm, children) => AllFit(children) && |EncodeAll(MinimalAll(children))| < Pow256(LWORD)
  }

  predicate AllFit(ts: seq<Tlv>)
    decreases ts, 0
  {
    ts == [] || (Fits(ts[0]) && AllFit(ts[1..]))
  }

  /** The object with its own length made definite and minimal, and within an
      indefinite object those of its children; what is inside a definite object
      stays. */
  function Minimal(t: Tlv): Tlv
    requires Fits(t)
    decreases t, 1
  {
    match t
    case Leaf(tag, _, content) => Leaf(tag, DerLength(|content|), content)
    case Node(tag, DefiniteForm(_), children) => Node(tag, DefiniteForm(DerLength(|EncodeAll(children)|)), children)
    case Node(tag, IndefiniteForm, children) =>
      var ts := MinimalAll(children);
      Node(tag, DefiniteForm(DerLength(|EncodeAll(ts)|)), ts)
  }

  function MinimalAll(ts: seq<Tlv>): seq<Tlv>
    requires AllFit(ts)
    decreases ts, 1
  {
    if ts == [] then [] else [Minimal(ts[0])] + MinimalAll(ts[1..])
  }

  /** The minimal object says the same, and encodes it properly. */
  lemma {:induction false} MinimalShape(t: Tlv)
    requires Fits(t)
    ensures ShapeOf(Minimal(t)) == ShapeOf(t)
    ensures WellFormed(t) ==> WellFormed(Minimal(t))
    decreases t, 1
  {
    hide ParseLength, DerLength, Pow256;
    match t
    case Leaf(_, _, content) =>
      AloneRoundTrip(|content|);
    case Node(_, DefiniteForm(_), children) =>
      AloneRoundTrip(|EncodeAll(children)|);
    case Node(_, IndefiniteForm, children) =>
      MinimalShapes(children);
      AloneRoundTrip(|EncodeAll(MinimalAll(children))|);
  }

  lemma AloneRoundTrip(n: nat)
    requires n < Pow256(LWORD)
    ensures ParseLength(DerLength(n)) == Definite(n, [])
  {
    LengthRoundTrip(n, []);
    assert DerLength(n) + [] == DerLength(n);
  }

  lemma {:induction false} MinimalShapes(ts: seq<Tlv>)
    requires AllFit(ts)
    ensures ShapesOf(MinimalAll(ts)) == ShapesOf(ts)
    ensures AllWellFormed(ts) ==> AllWellFormed(MinimalAll(ts))
    decreases ts, 0
  {
    hide ParseLength, DerLength, Pow256;
    if ts != [] {
      MinimalShape(ts[0]);
      MinimalShapes(ts[1..]);
      assert MinimalAll(ts)[1..] == MinimalAll(ts[1..]);
    }
  }

  // ----- when the result is DER

  /** Every length, to any depth, is definite and minimal. */
  predicate Der(t: Tlv) {
    match t
    case Leaf(_, octets, content) => |content| < Pow256(LWORD) && octets == DerLength(|content|)
    case Node(_, DefiniteForm(octets), children) =>
      && |EncodeAll(children)| < Pow256(LWORD) && octets == DerLength(|EncodeAll(children)|)
      && AllDer(children)
    case Node(_, IndefiniteForm, _) => false
  }

  predicate AllDer(ts: seq<Tlv>) {
    ts == [] || (Der(ts[0]) && AllDer(ts[1..]))
  }

  /** What is inside the outermost definite objects is DER already. */
  predicate Reached(t: Tlv) {
    match t
    case Leaf(_, _, _) => true
    case Node(_, DefiniteForm(_), children) => AllDer(children)
    case Node(_, IndefiniteForm, children) => AllReached(children)
  }

  predicate AllReached(ts: seq<Tlv>) {
    ts == [] || (Reached(ts[0]) && AllReached(ts[1..]))
  }

  /** Reencoding gives DER exactly when it need not look inside a definite
      object. */
  lemma {:induction false} DerExact(t: Tlv)
    requires Fits(t)
    ensures Der(Minimal(t)) <==> Reached(t)
    decreases t, 1
  {
    hide DerLength, Pow256;
    if t.Node? && t.form.IndefiniteForm? {
      AllDerExact(t.children);
    }
  }

  lemma {:induction false} AllDerExact(ts: seq<Tlv>)
    requires AllFit(ts)
    ensures AllDer(MinimalAll(ts)) <==> AllReached(ts)
    decreases ts, 0
  {
    hide DerLength, Pow256;
    if ts != [] {
      DerExact(ts[0]);
      AllDerExact(ts[1..]);
      assert MinimalAll(ts)[1..] == MinimalAll(ts[1..]);
    }
  }

  /** An empty sequence of indefinite length in a sequence of definite length. */
  const Nested: Tlv := Node(0x30, DefiniteForm([4]), [Node(0x30, IndefiniteForm, [])])

  /** It is a proper encoding, and its indefinite length is still there after
      reencoding. */
  lemma NotDer()
    ensures WellFormed(Nested) && Fits(Nested) && Minimal(Nested) == Nested && !Der(Nested)
    ensures Encode(Nested) == [0x30, 4, 0x30, 0x80, 0, 0]
    ensures Reencode([0x30, 4, 0x30, 0x80, 0, 0]) == Out([0x30, 4, 0x30, 0x80, 0, 0], [])
  {
    SmallLength();
    var inner := Node(0x30, IndefiniteForm, []);
    var children := [inner];
    assert children[1..] == [];
    assert EncodeAll([]) == [] && Encode(inner) == [0x30, 0x80, 0, 0];
    assert EncodeAll(children) == [0x30, 0x80, 0, 0];
    assert AllWellFormed([]) && AllWellFormed(children);
    var octets: seq<byte> := [4];
    assert octets[1..] == [];
    ReencodeComplete(Nested, []);
    assert Encode(Nested) + [] == Encode(Nested);
  }

  // ----- the reference for the method

  lemma {:induction false} LongFormDefinite(acc: nat, k: nat, s: seq<byte>)
    ensures !LongForm(acc, k, s).Indefinite?
    decreases k
  {
    if k > 0 && acc < Pow256(LWORD - 1) && s != [] {
      LongFormDefinite(256 * acc + s[0], k - 1, s[1..]);
    }
  }

  lemma IndefiniteIs(s: seq<byte>)
    requires ParseLength(s).Indefinite?
    ensures s != [] && s[0] == 0x80 && ParseLength(s).rest == s[1..]
  {
    if s[0] > 0x80 {
      LongFormDefinite(0, s[0] - 0x80, s[1..]);
    }
  }

  datatype Output = Out(out: seq<byte>, rest: seq<byte>) | Fail

  function DerObject(tag: byte, body: seq<byte>): seq<byte>
    requires |body| < Pow256(LWORD)
  {
    [tag] + DerLength(|body|) + body
  }

  /** One object off the front of s. */
  function Reencode(s: seq<byte>): (r: Output)
    ensures r.Out? ==> |r.rest| < |s|
    decreases |s|, 0
  {
    if s == [] then Fail else
    match ParseLength(s[1..])
    case Definite(n, rest) =>
      LengthShortest(s[1..]);
      if |rest| < n then Fail else Out(DerObject(s[0], rest[..n]), rest[n..])
    case Indefinite(rest) =>
      IndefiniteIs(s[1..]);
      if !IsConstructed(s[0]) then Fail else
      (match ReencodeAll(rest)
       case Fail => Fail
       case Out(body, end) => if |body| < Pow256(LWORD) then Out(DerObject(s[0], body), end) else Fail)
    case _ => Fail
  }

  /** Objects up to and including the end of the content. */
  function ReencodeAll(s: seq<byte>): (r: Output)
    ensures r.Out? ==> |r.rest| < |s|
    decreases |s|, 1
  {
    if EndOfContent(s) then Out([], s[2..]) else
    match Reencode(s)
    case Fail => Fail
    case Out(first, rest) =>
      (match ReencodeAll(rest)
       case Fail => Fail
       case Out(more, end) => Out(first + more, end))
  }

  // ----- the method computes the reference, and what the reference means

  /** A length field says the same whatever follows it. */
  lemma LengthPrefix(octets: seq<byte>, n: nat, rest: seq<byte>)
    requires ParseLength(octets) == Definite(n, [])
    ensures ParseLength(octets + rest) == Definite(n, rest)
  {
    var s := octets + rest;
    assert s[1..] == octets[1..] + rest;
    if octets[0] < 0x80 {
      assert octets[1..] == [] && [] + rest == rest;
    } else {
      if octets[0] == 0x80 {
        assert false;
      }
      LongFormPrefix(0, octets[0] - 0x80, octets[1..], rest);
      assert [] + rest == rest;
    }
  }

  lemma {:induction false} LongFormPrefix(acc: nat, k: nat, s: seq<byte>, rest: seq<byte>)
    requires LongForm(acc, k, s).Definite?
    ensures LongForm(acc, k, s + rest) == Definite(LongForm(acc, k, s).length, LongForm(acc, k, s).rest + rest)
    decreases k
  {
    if k > 0 {
      LongFormPrefix(256 * acc + s[0], k - 1, s[1..], rest);
      assert (s + rest)[1..] == s[1..] + rest;
    }
  }

  /** Every encoding is consumed exactly, and the same object is written with
      its length definite and minimal. */
  lemma {:induction false} ReencodeComplete(t: Tlv, rest: seq<byte>)
    requires WellFormed(t) && Fits(t)
    ensures Reencode(Encode(t) + rest) == Out(Encode(Minimal(t)), rest)
    ensures WellFormed(Minimal(t)) && ShapeOf(Minimal(t)) == ShapeOf(t)
    decreases t, 1
  {
    MinimalShape(t);
    hide ParseLength, DerLength, Pow256, Reencode, ReencodeAll, EncodeAll, ShapeOf, AllWellFormed;
    var s := Encode(t) + rest;
    match t
    case Leaf(tag, octets, content) =>
      DefiniteObject(s, tag, octets, content, rest);
    case Node(tag, DefiniteForm(octets), children) =>
      DefiniteObject(s, tag, octets, EncodeAll(children), rest);
    case Node(tag, IndefiniteForm, children) =>
      assert s == [tag, 0x80] + (EncodeAll(children) + ([0, 0] + rest));
      ReencodeAllComplete(children, rest);
      IndefiniteObject(s, tag, EncodeAll(children) + ([0, 0] + rest), EncodeAll(MinimalAll(children)), rest);
  }

  lemma DefiniteObject(s: seq<byte>, tag: byte, octets: seq<byte>, body: seq<byte>, rest: seq<byte>)
    requires s == [tag] + octets + body + rest && ParseLength(octets) == Definite(|body|, [])
    requires |body| < Pow256(LWORD)
    ensures Reencode(s) == Out([tag] + DerLength(|body|) + body, rest)
  {
    hide ParseLength, DerLength, Pow256, ReencodeAll;
    assert s[1..] == octets + (body + rest);
    LengthPrefix(octets, |body|, body + rest);
    assert (body + rest)[..|body|] == body && (body + rest)[|body|..] == rest;
  }

  lemma IndefiniteObject(s: seq<byte>, tag: byte, inner: seq<byte>, body: seq<byte>, rest: seq<byte>)
    requires s == [tag, 0x80] + inner && IsConstructed(tag)
    requires ReencodeAll(inner) == Out(body, rest) && |body| < Pow256(LWORD)
    ensures Reencode(s) == Out([tag] + DerLength(|body|) + body, rest)
  {
    hide DerLength, Pow256, ReencodeAll;
    assert s[1..] == [0x80] + inner && s[1..][1..] == inner;
  }

  lemma {:induction false} ReencodeAllComplete(ts: seq<Tlv>, rest: seq<byte>)
    requires AllWellFormed(ts) && NoneIsEnd(ts) && AllFit(ts)
    ensures ReencodeAll(EncodeAll(ts) + ([0, 0] + rest)) == Out(EncodeAll(MinimalAll(ts)), rest)
    decreases ts, 0
  {
    hide Reencode, Encode, Minimal, WellFormed, Fits;
    var end := [0, 0] + rest;
    if ts == [] {
      assert EncodeAll(ts) + end == end && end[2..] == rest;
    } else {
      var first, more := Encode(ts[0]), EncodeAll(ts[1..]) + end;
      assert EncodeAll(ts) + end == first + more;
      ReencodeComplete(ts[0], more);
      ReencodeAllComplete(ts[1..], rest);
      NotEnd(ts[0], more);
      assert MinimalAll(ts)[1..] == MinimalAll(ts[1..]);
    }
  }

  /** An indefinite length is accepted with every tag of a constructed object,
      whatever its class and number, and refused with every tag of a primitive
      one, whatever follows. */
  lemma IndefiniteTags(c: nat, t: nat, ts: seq<Tlv>, rest: seq<byte>, s: seq<byte>)
    requires c < 4 && t < 32
    requires AllWellFormed(ts) && NoneIsEnd(ts) && AllFit(ts) && |EncodeAll(MinimalAll(ts))| < Pow256(LWORD)
    ensures var body := EncodeAll(MinimalAll(ts));
      Reencode([64 * c + 32 + t, 0x80] + EncodeAll(ts) + [0, 0] + rest) ==
        Out([64 * c + 32 + t] + DerLength(|body|) + body, rest)
    ensures Reencode([64 * c + t, 0x80] + s) == Fail
  {
    hide ParseLength, DerLength, Pow256, ReencodeAll, EncodeAll, MinimalAll, AllWellFormed, NoneIsEnd, AllFit;
    var tag: byte, inner := 64 * c + 32 + t, EncodeAll(ts) + ([0, 0] + rest);
    TagBits(c, t);
    ReencodeAllComplete(ts, rest);
    assert [tag, 0x80] + EncodeAll(ts) + [0, 0] + rest == [tag, 0x80] + inner;
    hide Reencode;
    IndefiniteObject([tag, 0x80] + inner, tag, inner, EncodeAll(MinimalAll(ts)), rest);
    PrimitiveIndefinite(64 * c + t, s);
  }

  lemma TagBits(c: nat, t: nat)
    requires c < 4 && t < 32
    ensures IsConstructed(64 * c + 32 + t) && !IsConstructed(64 * c + t)
  {
  }

  lemma PrimitiveIndefinite(tag: byte, s: seq<byte>)
    requires !IsConstructed(tag)
    ensures Reencode([tag, 0x80] + s) == Fail
  {
    var o := [tag, 0x80] + s;
    assert o[1..] == [0x80] + s;
  }

  /** A0 80 00 00 becomes A0 00. */
  lemma AttributeSet()
    ensures Reencode([0xa0, 0x80, 0, 0]) == Out([0xa0, 0], [])
  {
    SmallLength();
    IndefiniteTags(2, 0, [], [], []);
    assert EncodeAll([]) == [] && MinimalAll([]) == [];
    assert [0xa0, 0x80] + EncodeAll([]) + [0, 0] + [] == [0xa0, 0x80, 0, 0];
  }

  /** What follows an object does not make it look like the end. */
  lemma NotEnd(t: Tlv, more: seq<byte>)
    requires !EndOfContent(Encode(t)) && WellFormed(t)
    ensures !EndOfContent(Encode(t) + more)
  {
    assert |Encode(t)| >= 2 by {
      if t.Leaf? {
        assert |t.octets| >= 1;
      } else if t.form.DefiniteForm? {
        assert |t.form.octets| >= 1;
      }
    }
  }

  /** Whatever is accepted is an encoding, and what is written is the minimal
      encoding of the same object. */
  lemma {:induction false} ReencodeSound(s: seq<byte>) returns (t: Tlv)
    requires Reencode(s).Out?
    ensures WellFormed(t) && Fits(t)
    ensures s == Encode(t) + Reencode(s).rest
    ensures Reencode(s).out == Encode(Minimal(t))
    ensures WellFormed(Minimal(t)) && ShapeOf(Minimal(t)) == ShapeOf(t)
    decreases |s|, 0
  {
    hide Reencode, ReencodeAll, ParseLength, DerLength, Pow256, Encode, Minimal, WellFormed, Fits, ShapeOf;
    ByHeader(s);
    match ParseHeader(s)
    case Header(_, true, n, rest) =>
      t := SoundDefinite(s, n, rest);
      MinimalShape(t);
    case Header(_, false, _, rest) =>
      var ts := ReencodeAllSound(rest);
      t := SoundIndefinite(s, ts, rest, ReencodeAll(rest).out, ReencodeAll(rest).rest);
      MinimalShape(t);
  }

  lemma SoundIndefinite(s: seq<byte>, ts: seq<Tlv>, rest: seq<byte>, body: seq<byte>, end: seq<byte>) returns (t: Tlv)
    requires s != [] && ParseLength(s[1..]) == Indefinite(rest) && IsConstructed(s[0])
    requires AllWellFormed(ts) && NoneIsEnd(ts) && AllFit(ts)
    requires rest == EncodeAll(ts) + [0, 0] + end
    requires body == EncodeAll(MinimalAll(ts)) && |body| < Pow256(LWORD)
    ensures WellFormed(t) && Fits(t) && s == Encode(t) + end
    ensures Encode(Minimal(t)) == [s[0]] + DerLength(|body|) + body
  {
    hide ParseLength, DerLength, Pow256, EncodeAll, MinimalAll, AllWellFormed, NoneIsEnd, AllFit;
    IndefiniteIs(s[1..]);
    assert s == [s[0], 0x80] + rest;
    t := Node(s[0], IndefiniteForm, ts);
  }

  lemma SoundDefinite(s: seq<byte>, n: nat, rest: seq<byte>) returns (t: Tlv)
    requires s != [] && ParseLength(s[1..]) == Definite(n, rest) && n <= |rest|
    ensures t.Leaf? && WellFormed(t) && Fits(t) && s == Encode(t) + rest[n..]
    ensures n < Pow256(LWORD) && Encode(Minimal(t)) == [s[0]] + DerLength(n) + rest[..n]
  {
    hide DerLength, Pow256, LongForm;
    LengthShortest(s[1..]);
    var k := |s[1..]| - |rest|;
    var octets := s[1..][..k];
    assert s[1..] == octets + rest;
    LengthAlone(octets, rest, n);
    t := Leaf(s[0], octets, rest[..n]);
  }

  lemma LengthAlone(octets: seq<byte>, rest: seq<byte>, n: nat)
    requires octets != [] && ParseLength(octets + rest) == Definite(n, rest)
    ensures ParseLength(octets) == Definite(n, [])
  {
    hide Pow256;
    var s := octets + rest;
    assert s[0] == octets[0] && s[1..] == octets[1..] + rest;
    if octets[0] < 0x80 {
      assert |octets| == 1;
    } else if octets[0] > 0x80 {
      LongFormAlone(0, octets[0] - 0x80, octets[1..], rest);
    }
  }

  lemma {:induction false} LongFormAlone(acc: nat, k: nat, s: seq<byte>, rest: seq<byte>)
    requires LongForm(acc, k, s + rest).Definite? && LongForm(acc, k, s + rest).rest == rest
    ensures LongForm(acc, k, s) == Definite(LongForm(acc, k, s + rest).length, [])
    decreases k
  {
    hide Pow256;
    if k == 0 {
      assert |s + rest| == |rest|;
    } else if s == [] {
      assert s + rest == rest;
      LongFormConsumes(acc, k, rest);
      assert false;
    } else {
      assert (s + rest)[1..] == s[1..] + rest;
      LongFormAlone(256 * acc + s[0], k - 1, s[1..], rest);
    }
  }

  lemma {:induction false} LongFormConsumes(acc: nat, k: nat, s: seq<byte>)
    requires LongForm(acc, k, s).Definite?
    ensures |LongForm(acc, k, s).rest| == |s| - k
    decreases k
  {
    if k > 0 {
      LongFormConsumes(256 * acc + s[0], k - 1, s[1..]);
    }
  }

  lemma {:induction false} ReencodeAllSound(s: seq<byte>) returns (ts: seq<Tlv>)
    requires ReencodeAll(s).Out?
    ensures AllWellFormed(ts) && NoneIsEnd(ts) && AllFit(ts)
    ensures s == EncodeAll(ts) + [0, 0] + ReencodeAll(s).rest
    ensures ReencodeAll(s).out == EncodeAll(MinimalAll(ts))
    decreases |s|, 1
  {
    hide Reencode, Encode, Minimal, WellFormed, Fits;
    if EndOfContent(s) {
      ts := [];
      assert s == [] + [0, 0] + s[2..];
    } else {
      var t := ReencodeSound(s);
      var rest := Reencode(s).rest;
      var more := ReencodeAllSound(rest);
      ts := [t] + more;
      assert ts[1..] == more;
      assert !EndOfContent(Encode(t));
      assert MinimalAll(ts)[1..] == MinimalAll(more);
      assert s == Encode(t) + (EncodeAll(more) + [0, 0] + ReencodeAll(rest).rest);
    }
  }

  /** Reencoding its own output changes nothing. */
  lemma ReencodeIdempotent(s: seq<byte>, r: seq<byte>)
    requires Reencode(s).Out?
    ensures Reencode(Reencode(s).out + r) == Out(Reencode(s).out, r)
  {
    hide Reencode, Pow256, DerLength, ParseLength, ReencodeAll;
    var body := ReencodedBody(s);
    var o := Reencode(s).out;
    LengthRoundTrip(|body|, []);
    assert DerLength(|body|) + [] == DerLength(|body|);
    DefiniteObject(o + r, s[0], DerLength(|body|), body, r);
  }

  lemma ReencodedBody(s: seq<byte>) returns (body: seq<byte>)
    requires Reencode(s).Out?
    ensures s != [] && |body| < Pow256(LWORD) && Reencode(s).out == [s[0]] + DerLength(|body|) + body
  {
    hide ReencodeAll, Pow256, DerLength;
    match ParseLength(s[1..])
    case Definite(n, rest) =>
      LengthShortest(s[1..]);
      body := rest[..n];
    case Indefinite(rest) =>
      IndefiniteIs(s[1..]);
      body := ReencodeAll(rest).out;
  }

  // ----- what an attempt leaves behind

  /** What dest gets: the object, or on failure what there is of it, for the
      destructor of an encoder ends its object too. */
  function Left(s: seq<byte>): seq<byte>
    decreases |s|, 0
  {
    ByHeader(s);
    match ParseHeader(s)
    case BadHeader => []
    case Header(tag, true, n, rest) => Ended(tag, rest[..Min(n, |rest|)])
    case Header(tag, false, _, rest) => Ended(tag, LeftAll(rest))
  }

  function LeftAll(s: seq<byte>): seq<byte>
    decreases |s|, 1
  {
    if EndOfContent(s) then []
    else Left(s) + if Reencode(s).Out? then LeftAll(Reencode(s).rest) else []
  }

  function Ended(tag: byte, body: seq<byte>): seq<byte> {
    if ShortEnough(|body|) then DerObject(tag, body) else []
  }

  /** DERReencode.  The nested decoder takes its bytes from the source, so they
      are charged to every decoder the source is nested in; the nested encoder
      writes its object to dest when it ends.  A length that an lword cannot
      hold counts as failure. */
  method DERReencode(source: Stream, dest: Stream) returns (ok: bool)
    requires source != dest
    modifies source, dest`bytes
    ensures ok == Reencode(old(source.Visible())).Out?
    ensures dest.bytes == old(dest.bytes) + Left(old(source.Visible()))
    ensures ok ==> dest.bytes == old(dest.bytes) + Reencode(old(source.Visible())).out
    ensures ok ==> source.Visible() == Reencode(old(source.Visible())).rest
    ensures ok ==> Charged(old(source.bytes), old(source.limits), source.bytes, source.limits,
                           |old(source.Visible())| - |source.Visible()|)
    decreases |source.Visible()|, 0
  {
    hide ParseLength, DerLength, Pow256, Reencode, ReencodeAll, Charged, LeftAll;
    ghost var s, b0, l0 := source.Visible(), source.bytes, source.limits;
    ByHeader(s);
    var h := Init(source);
    if h.BadHeader? {
      return false;
    }
    ghost var inner, b1, l1 := source.Visible(), source.bytes, source.limits;
    var encoder := new Stream([], []);
    if h.definite {
      var content := source.Take(h.length);
      encoder.Put(content);
      assert encoder.bytes == content;
      if |content| != h.length {
        Unwind(dest, h.tag, encoder);
        return false;
      }
    } else {
      ok := ReencodeChildren(source, encoder);
      if !ok {
        Unwind(dest, h.tag, encoder);
        return false;
      }
    }
    ChargedTwice(b0, l0, b1, l1, source.bytes, source.limits, |s| - |inner|, |inner| - |source.Visible()|);
    if !ShortEnough(|encoder.bytes|) {
      return false;
    }
    MessageEnd(dest, h.tag, encoder);
    ok := true;
  }

  /** DERGeneralEncoder::MessageEnd. */
  method MessageEnd(outQueue: Stream, tag: byte, encoder: Stream)
    requires outQueue != encoder && |encoder.bytes| < Pow256(LWORD)
    modifies outQueue`bytes
    ensures outQueue.bytes == old(outQueue.bytes) + ([tag] + DerLength(|encoder.bytes|) + encoder.bytes)
  {
    hide DerLength, Pow256;
    outQueue.Put([tag]);
    var n := DERLengthEncode(outQueue, |encoder.bytes|);
    outQueue.Put(encoder.bytes);
  }

  /** DERGeneralEncoder::~DERGeneralEncoder, when an exception passes. */
  method Unwind(outQueue: Stream, tag: byte, encoder: Stream)
    requires outQueue != encoder
    modifies outQueue`bytes
    ensures outQueue.bytes == old(outQueue.bytes) + Ended(tag, encoder.bytes)
  {
    hide DerLength, Pow256;
    if ShortEnough(|encoder.bytes|) {
      MessageEnd(outQueue, tag, encoder);
    }
  }

  /** What BERGeneralDecoder::Init makes of the front of a stream. */
  datatype HeaderResult = Header(tag: byte, definite: bool, length: nat, rest: seq<byte>) | BadHeader

  function ParseHeader(s: seq<byte>): HeaderResult {
    if s == [] then BadHeader else
    match ParseLength(s[1..])
    case Definite(n, rest) => Header(s[0], true, n, rest)
    case Indefinite(rest) => if IsConstructed(s[0]) then Header(s[0], false, 0, rest) else BadHeader
    case _ => BadHeader
  }

  lemma ByHeader(s: seq<byte>)
    ensures match ParseHeader(s)
      case BadHeader => Reencode(s) == Fail
      case Header(tag, true, n, rest) =>
        && |rest| < |s|
        && (|rest| < n ==> Reencode(s) == Fail)
        && (|rest| >= n ==> n < Pow256(LWORD) && Reencode(s) == Out([tag] + DerLength(n) + rest[..n], rest[n..]))
      case Header(tag, false, _, rest) =>
        && |rest| < |s|
        && match ReencodeAll(rest)
           case Fail => Reencode(s) == Fail
           case Out(body, end) =>
             if ShortEnough(|body|) then Reencode(s) == Out([tag] + DerLength(|body|) + body, end)
             else Reencode(s) == Fail
  {
    hide DerLength, Pow256, ReencodeAll;
    if s != [] {
      match ParseLength(s[1..])
      case Definite(_, _) => LengthShortest(s[1..]);
      case Indefinite(_) => IndefiniteIs(s[1..]);
      case _ =>
    }
  }

  /** BERGeneralDecoder::Init, for the tag that was peeked at. */
  method Init(source: Stream) returns (h: HeaderResult)
    modifies source
    ensures h == ParseHeader(old(source.Visible()))
    ensures h.Header? ==>
              && source.Visible() == h.rest && |h.rest| < |old(source.Visible())|
              && Charged(old(source.bytes), old(source.limits), source.bytes, source.limits,
                         |old(source.Visible())| - |h.rest|)
  {
    hide ParseLength, Charged;
    ghost var s, b0, l0 := source.Visible(), source.bytes, source.limits;
    var tag := source.Take(1);
    if |tag| == 0 {
      return BadHeader;
    }
    assert source.Visible() == s[1..];
    ghost var b1, l1 := source.bytes, source.limits;
    var length := BERLengthDecode(source);
    if length.OutOfData? || length.Overflow? || (length.Indefinite? && !IsConstructed(tag[0])) {
      return BadHeader;
    }
    ChargedTwice(b0, l0, b1, l1, source.bytes, source.limits, 1, |s| - 1 - |length.rest|);
    h := Header(tag[0], length.Definite?, if length.Definite? then length.length else 0, length.rest);
  }

  predicate ShortEnough(n: nat) {
    n < Pow256(LWORD)
  }

  /** The loop over the objects of an indefinite length, and MessageEnd. */
  method ReencodeChildren(source: Stream, encoder: Stream) returns (ok: bool)
    requires source != encoder && encoder.bytes == []
    modifies source, encoder`bytes
    ensures ok == ReencodeAll(old(source.Visible())).Out?
    ensures encoder.bytes == LeftAll(old(source.Visible()))
    ensures ok ==> encoder.bytes == ReencodeAll(old(source.Visible())).out
    ensures ok ==> source.Visible() == ReencodeAll(old(source.Visible())).rest
    ensures ok ==> Charged(old(source.bytes), old(source.limits), source.bytes, source.limits,
                           |old(source.Visible())| - |source.Visible()|)
    decreases |source.Visible()|, 1
  {
    hide Reencode, ReencodeAll, Charged, Continues, Left, LeftAll;
    ghost var s, b0, l0 := source.Visible(), source.bytes, source.limits;
    ChargedNone(b0, l0);
    ContinuesStart(ReencodeAll(s));
    while !EndOfContent(source.Visible())
      invariant |source.Visible()| <= |s|
      invariant Continues(ReencodeAll(s), encoder.bytes, ReencodeAll(source.Visible()))
      invariant encoder.bytes + LeftAll(source.Visible()) == LeftAll(s)
      invariant Charged(b0, l0, source.bytes, source.limits, |s| - |source.Visible()|)
      decreases |source.Visible()|
    {
      ghost var before, b1, l1 := source.Visible(), source.bytes, source.limits;
      ghost var done := encoder.bytes;
      NextChild(before);
      NextLeft(before, done);
      ok := DERReencode(source, encoder);
      if !ok {
        ContinuesFail(ReencodeAll(s), done, ReencodeAll(before));
        return;
      }
      ChargedTwice(b0, l0, b1, l1, source.bytes, source.limits, |s| - |before|, |before| - |source.Visible()|);
      Continued(ReencodeAll(s), done, Reencode(before).out, before, source.Visible());
    }
    NextChild(source.Visible());
    NextLeft(source.Visible(), encoder.bytes);
    ghost var before, b1, l1 := source.Visible(), source.bytes, source.limits;
    ContinuesEnd(ReencodeAll(s), encoder.bytes, before[2..]);
    var end := source.Take(2);
    ChargedTwice(b0, l0, b1, l1, source.bytes, source.limits, |s| - |before|, 2);
    ok := true;
  }

  /** What was written so far, with the rest of the parse, is the whole. */
  ghost predicate Continues(whole: Output, done: seq<byte>, remaining: Output) {
    match remaining
    case Fail => whole == Fail
    case Out(more, end) => whole == Out(done + more, end)
  }

  lemma ContinuesStart(whole: Output)
    ensures Continues(whole, [], whole)
  {
    if whole.Out? {
      assert [] + whole.out == whole.out;
    }
  }

  lemma ContinuesFail(whole: Output, done: seq<byte>, remaining: Output)
    requires Continues(whole, done, remaining) && remaining == Fail
    ensures whole == Fail
  {
  }

  lemma ContinuesEnd(whole: Output, done: seq<byte>, end: seq<byte>)
    requires Continues(whole, done, Out([], end))
    ensures whole == Out(done, end)
  {
    assert done + [] == done;
  }

  lemma ChargedNone(bytes: seq<byte>, limits: seq<nat>)
    ensures Charged(bytes, limits, bytes, limits, 0)
  {
  }

  lemma NextChild(s: seq<byte>)
    ensures EndOfContent(s) ==> ReencodeAll(s) == Out([], s[2..])
    ensures !EndOfContent(s) && Reencode(s) == Fail ==> ReencodeAll(s) == Fail
    ensures !EndOfContent(s) && Reencode(s).Out? ==>
              Continues(ReencodeAll(s), Reencode(s).out, ReencodeAll(Reencode(s).rest))
  {
    hide Reencode;
  }

  lemma NextLeft(s: seq<byte>, done: seq<byte>)
    ensures EndOfContent(s) ==> done + LeftAll(s) == done
    ensures !EndOfContent(s) && Reencode(s) == Fail ==> done + LeftAll(s) == done + Left(s)
    ensures !EndOfContent(s) && Reencode(s).Out? ==> done + LeftAll(s) == (done + Left(s)) + LeftAll(Reencode(s).rest)
  {
    hide Reencode, Left;
  }

  lemma Continued(whole: Output, done: seq<byte>, first: seq<byte>, s: seq<byte>, rest: seq<byte>)
    requires Continues(whole, done, ReencodeAll(s)) && Continues(ReencodeAll(s), first, ReencodeAll(rest))
    ensures Continues(whole, done + first, ReencodeAll(rest))
  {
    hide ReencodeAll;
    if ReencodeAll(rest).Out? {
      var more := ReencodeAll(rest).out;
      assert done + (first + more) == (done + first) + more;
    }
  }
}

/** BaseN_Encoder and BaseN_Decoder (crypto++/basecode.cpp): streaming base-2^k
    coding for k from 1 to 7 (the bit packing of sections 4, 6 and 8 of RFC
    4648). */
module BaseN {
  import opened Powers
  import opened BitStrings

  // ----- what a whole message is coded as

  function Map(alphabet: seq<byte>, values: seq<nat>): (s: seq<byte>)
    requires forall v <- values :: v < |alphabet|
    ensures |s| == |values|
  {
    seq(|values|, i requires 0 <= i < |values| => assert values[i] in values; alphabet[values[i]])
  }

  function Repeat(b: byte, n: nat): seq<byte> {
    seq(n, _ => b)
  }

  /** The characters of a message, before padding. */
  function Characters(data: seq<byte>, k: nat): (v: seq<nat>)
    requires k >= 1
    ensures forall x <- v :: x < Pow2(k)
  {
    Groups(AllBits(data, 8), k)
  }

  /** The characters that the lookup table knows. */
  function Known(lookup: seq<int>, s: seq<byte>): (v: seq<nat>)
    requires |lookup| == 256
  {
    if s == [] then [] else
    var c := lookup[s[|s| - 1]];
    Known(lookup, s[..|s| - 1]) + if 0 <= c < 256 then [c] else []
  }

  /** A table for k-bit values. */
  ghost predicate IsTable(lookup: seq<int>, k: nat) {
    |lookup| == 256 && forall i :: 0 <= i < 256 ==> lookup[i] < Pow2(k) || lookup[i] >= 256
  }

  lemma {:induction false} KnownValues(lookup: seq<int>, k: nat, s: seq<byte>)
    requires IsTable(lookup, k)
    ensures forall v <- Known(lookup, s) :: 0 <= v < Pow2(k)
  {
    if s != [] {
      KnownValues(lookup, k, s[..|s| - 1]);
    }
  }

  lemma {:induction false} KnownConcat(lookup: seq<int>, s: seq<byte>, t: seq<byte>)
    requires |lookup| == 256
    ensures Known(lookup, s + t) == Known(lookup, s) + Known(lookup, t)
  {
    if t == [] {
      assert s + t == s;
    } else {
      KnownConcat(lookup, s, t[..|t| - 1]);
      assert (s + t)[..|s + t| - 1] == s + t[..|t| - 1];
    }
  }

  /** What a message of characters decodes to. */
  function Decoded(lookup: seq<int>, k: nat, s: seq<byte>): seq<nat>
    requires |lookup| == 256
  {
    Whole(AllBits(Known(lookup, s), k), 8)
  }

  /** The table undoes the alphabet, and does not know the padding. */
  ghost predicate Matches(lookup: seq<int>, alphabet: seq<byte>, k: nat) {
    && |lookup| == 256 && |alphabet| == Pow2(k)
    && forall i :: 0 <= i < |alphabet| ==> lookup[alphabet[i]] == i
  }

  lemma {:induction false} KnownMapped(lookup: seq<int>, alphabet: seq<byte>, k: nat, values: seq<nat>)
    requires 1 <= k <= 7 && Matches(lookup, alphabet, k) && forall v <- values :: v < Pow2(k)
    ensures Known(lookup, Map(alphabet, values)) == values
  {
    hide Pow2;
    SmallPower(k);
    if values != [] {
      var front, last := values[..|values| - 1], values[|values| - 1];
      assert values == front + [last];
      assert forall v <- front :: v in values;
      KnownMapped(lookup, alphabet, k, front);
      assert Map(alphabet, values)[..|values| - 1] == Map(alphabet, front);
      assert last in values;
    }
  }

  lemma SmallPower(k: nat)
    requires k <= 7
    ensures Pow2(k) <= 128
  {
    Pow2Monotone(k, 7);
    assert Pow2(4) == 16;
  }

  lemma {:induction false} KnownPadding(lookup: seq<int>, padding: byte, n: nat)
    requires |lookup| == 256 && !(0 <= lookup[padding] < 256)
    ensures Known(lookup, Repeat(padding, n)) == []
  {
    if n > 0 {
      KnownPadding(lookup, padding, n - 1);
      assert Repeat(padding, n)[..n - 1] == Repeat(padding, n - 1);
    }
  }

  /** Decoding the characters of a message, with or without padding, gives the
      message. */
  lemma RoundTrip(lookup: seq<int>, alphabet: seq<byte>, k: nat, data: seq<byte>, padding: byte, n: nat)
    requires 1 <= k <= 7 && Matches(lookup, alphabet, k)
    requires n > 0 ==> !(0 <= lookup[padding] < 256)
    ensures var sent := Map(alphabet, Characters(data, k)) + Repeat(padding, n);
      && Known(lookup, sent) == Characters(data, k)
      && Decoded(lookup, k, sent) == data
  {
    hide Pow2, AllBits, Groups, BitStrings.Whole;
    var values := Characters(data, k);
    var sent := Map(alphabet, values);
    KnownMapped(lookup, alphabet, k, values);
    if n > 0 {
      KnownPadding(lookup, padding, n);
    }
    KnownConcat(lookup, sent, Repeat(padding, n));
    assert values + [] == values;
    var pad := GroupsBits(AllBits(data, 8), k);
    BytesFit(data);
    WholeBits(data, 8, Zeros(pad));
  }

  lemma BytesFit(data: seq<byte>)
    ensures forall v <- data :: v < Pow2(8)
  {
    assert Pow2(8) == 256 by {
      assert Pow2(4) == 16;
    }
  }

  /** "f" in base 64 and base 32, as in section 10 of RFC 4648: characters 25, 32
      and two paddings, 12, 24 and six. */
  lemma LetterF()
    ensures Characters([0x66], 6) == [25, 32] && PadLength(4, 2) == 2
    ensures Characters([0x66], 5) == [12, 24] && PadLength(8, 2) == 6
  {
    assert Pow2(2) == 4 && Pow2(4) == 16 && Pow2(5) == 32 && Pow2(6) == 64 by {
      assert Pow2(3) == 8;
    }
    hide Pow2, Characters;
    TwoCharacters(0x66, 25, 32, 6, 4);
    TwoCharacters(0x66, 12, 24, 5, 2);
  }

  /** Two characters of a byte make up the byte, shifted by the filling. */
  lemma TwoCharacters(b: byte, x: nat, y: nat, k: nat, pad: nat)
    requires 2 * k == 8 + pad && pad < k && x < Pow2(k) && y < Pow2(k)
    requires x * Pow2(k) + y == b * Pow2(pad)
    ensures Characters([b], k) == [x, y]
  {
    hide Pow2, Groups, Shl, Bits, AllBits;
    var data: seq<byte> := [b];
    OneCell(b, 8);
    TwoCells(x, y, k);
    Appended(x, k, y, k);
    Appended(b, 8, 0, pad);
    ZeroBits(pad);
    GroupsUnique([x, y], k, AllBits(data, 8), pad);
  }

  lemma Appended(y: nat, m: nat, x: nat, n: nat)
    requires x < Pow2(n)
    ensures y * Pow2(n) + x >= 0 && Bits(y * Pow2(n) + x, m + n) == Bits(y, m) + Bits(x, n)
  {
    hide Bits, Shl;
    BitsJoin(y, m, x, n);
    ShlIsProduct(y, n);
  }

  lemma OneCell(x: nat, k: nat)
    ensures AllBits([x], k) == Bits(x, k)
  {
    AllBitsSnoc([], x, k);
    assert [] + [x] == [x];
  }

  lemma TwoCells(x: nat, y: nat, k: nat)
    ensures AllBits([x, y], k) == Bits(x, k) + Bits(y, k)
  {
    OneCell(x, k);
    AllBitsSnoc([x], y, k);
    assert [x] + [y] == [x, y];
  }

  // ----- one step of the packing loops

  lemma EncoderStep(buf: seq<nat>, k: nat, done: seq<bool>, b: nat, rem: seq<bool>, i: nat, t: nat)
    requires 1 <= k <= 7 && t < k && i < |buf| && |done| == k * i + t && Packed(buf, k, done)
    requires b < 256 && 1 <= |rem| <= 8 && Bits(b, 8) == rem + Zeros(8 - |rem|)
    ensures var target := k - t;
      var v := Shr(b, 8 - target);
      && Or(buf[i], v) < 256
      && (|rem| >= target ==>
        && Packed(buf[i := Or(buf[i], v)], k, done + rem[..target])
        && Bits(LowByte(b, target), 8) == rem[target..] + Zeros(8 - (|rem| - target)))
      && (|rem| < target ==> Packed(buf[i := Or(buf[i], v)], k, done + rem))
  {
    hide Bits, AllBits, Pow2, Packed, Or, Shr, Shl, Low;
    var target := k - t;
    var v := Shr(b, 8 - target);
    BytePower();
    ShrBound(b, 8 - target, target);
    BitsShr(b, 8 - target, 8);
    var v_bits := Bits(b, 8)[..target];
    Deposit(buf, k, done, i, t, v);
    var buf2 := buf[i := Or(buf[i], v)];
    CellBound(buf2, k, done + Bits(v, target), i);
    if |rem| >= target {
      assert v_bits == rem[..target];
      BitsShl(b, target, 8);
      BitsLow(Shl(b, target), 8);
      assert Bits(b, 8)[target..] + Zeros(target) == rem[target..] + Zeros(8 - (|rem| - target));
    } else {
      assert v_bits == rem + Zeros(target - |rem|);
      assert done + v_bits == (done + rem) + Zeros(target - |rem|);
      PackedLess(buf2, k, done + rem, target - |rem|);
    }
  }

  /** b <<= n; b &= 0xff */
  function LowByte(b: nat, n: nat): (r: nat)
    ensures r < 256
  {
    BytePower();
    ShlGrows(b, n);
    Low(Shl(b, n), 8)
  }

  lemma BytePower()
    ensures Pow2(8) == 256
  {
    assert Pow2(4) == 16;
  }

  lemma CellBound(buf: seq<nat>, k: nat, bits: seq<bool>, i: nat)
    requires 1 <= k <= 8 && Packed(buf, k, bits) && i < |buf|
    ensures buf[i] < 256 && buf[i] < Pow2(k)
  {
    Pow2Monotone(k, 8);
    BytePower();
    assert buf[i] in buf;
  }

  lemma ShrBound(b: nat, n: nat, m: nat)
    requires b < Pow2(n + m)
    ensures Shr(b, n) < Pow2(m)
    decreases n
  {
    if n > 0 {
      ShrAdd(b, 1, n - 1);
      ShrStep(b, 0);
      ShrBound(b / 2, n - 1, m);
    }
  }

  // ----- the encoder

  /** How many padding characters complete the last block. */
  function PadLength(blockSize: nat, characters: nat): (n: nat)
    requires blockSize >= 1
    ensures n < blockSize
  {
    if characters == 0 then 0
    else if characters < blockSize then blockSize - characters
    else PadLength(blockSize, characters - blockSize)
  }

  lemma {:induction false} PadCompletes(blockSize: nat, characters: nat) returns (blocks: nat)
    requires blockSize >= 1
    ensures characters + PadLength(blockSize, characters) == blockSize * blocks
    decreases characters
  {
    if characters == 0 {
      blocks := 0;
    } else if characters < blockSize {
      blocks := 1;
    } else {
      var fewer := PadCompletes(blockSize, characters - blockSize);
      blocks := fewer + 1;
    }
  }

  lemma {:induction false} PadOfLast(blockSize: nat, blocks: nat, last: nat)
    requires 1 <= blockSize && last <= blockSize
    ensures PadLength(blockSize, blockSize * blocks + last) == if last == 0 then 0 else blockSize - last
  {
    if blocks > 0 {
      PadOfLast(blockSize, blocks - 1, last);
      assert blockSize * blocks == blockSize * (blocks - 1) + blockSize;
    } else if last == blockSize {
      assert PadLength(blockSize, 0) == 0;
    }
  }

  /** What the encoder emits for one message. */
  function EncodedMessage(alphabet: seq<byte>, k: nat, padding: int, blockSize: nat, data: seq<byte>): seq<byte>
    requires k >= 1 && |alphabet| == Pow2(k) && -1 <= padding < 256 && blockSize >= 1
  {
    var c := Characters(data, k);
    Map(alphabet, c) + if padding == -1 then [] else Repeat(padding, PadLength(blockSize, |c|))
  }

  /** size is the number of k-bit characters in the least number of bytes that
      is a whole number of characters. */
  ghost predicate IsBlockSize(k: nat, size: nat, bytes: nat) {
    && size >= 1 && bytes >= 1 && k * size == 8 * bytes
    && forall n :: 1 <= n < bytes ==> (8 * n) % k != 0
  }
}

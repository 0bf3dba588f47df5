/** BaseN_Decoder (crypto++/basecode.cpp). */
module BaseNDecoder {
  import opened Powers
  import opened BitStrings
  import opened BaseN

  /** size is the number of bytes in the least number of k-bit characters that
      is a whole number of bytes. */
  ghost predicate IsByteBlock(k: nat, size: nat, chars: nat) {
    && size >= 1 && chars >= 1 && k * chars == 8 * size
    && forall n :: 1 <= n < chars ==> (k * n) % 8 != 0
  }

  /** The block size computed by the loop of IsolatedInitialize. */
  method OutputBlockSize(k: nat) returns (size: nat)
    requires 1 <= k <= 7
    ensures IsByteBlock(k, size, 8 * size / k)
  {
    var i := k;
    ghost var chars := 1;
    while i % 8 != 0
      invariant i == k * chars && 1 <= chars <= 8
      invariant forall n :: 1 <= n < chars ==> (k * n) % 8 != 0
      decreases 8 - chars
    {
      i := i + k;
      chars := chars + 1;
    }
    size := i / 8;
    assert 8 * size == k * chars;
    QuotientIs(k, chars);
  }

  lemma NotMore(k: nat, size: nat, chars: nat, n: nat)
    requires k >= 1 && n >= 1 && IsByteBlock(k, size, chars) && (k * n) % 8 == 0
    ensures chars <= n
  {
  }

  /** The odd part of k. */
  lemma BlockSizes(k: nat, size: nat)
    requires 1 <= k <= 7 && IsByteBlock(k, size, 8 * size / k)
    ensures k == 1 || k == 2 || k == 4 ==> size == 1
    ensures k == 3 || k == 6 ==> size == 3
    ensures k == 5 || k == 7 ==> size == k
  {
    var chars := 8 * size / k;
    match k {
      case 1 => NotMore(k, size, chars, 8);
      case 2 => NotMore(k, size, chars, 4);
      case 3 => NotMore(k, size, chars, 8);
      case 4 => NotMore(k, size, chars, 2);
      case 5 => NotMore(k, size, chars, 8);
      case 6 => NotMore(k, size, chars, 4);
      case 7 => NotMore(k, size, chars, 8);
    }
  }

  lemma QuotientIs(k: nat, n: nat)
    requires 1 <= k <= 7
    ensures k * n / k == n
  {
    match k {
      case 1 =>
      case 2 =>
      case 3 =>
      case 4 =>
      case 5 =>
      case 6 =>
      case 7 =>
    }
  }

  /** The characters of the message are the bytes sent and the bits still held. */
  ghost predicate Spelled(lookup: seq<int>, k: nat, chars: seq<byte>, sent: seq<byte>, block: seq<bool>) {
    |lookup| == 256 && AllBits(Known(lookup, chars), k) == AllBits(sent, 8) + block
  }

  /** The bits held are whole characters, and the two positions point behind them. */
  ghost predicate Counted(k: nat, bits: nat, chars: nat, bytePos: nat, bitPos: nat) {
    bitPos < 8 && bits == k * chars == 8 * bytePos + bitPos
  }

  lemma SkipCharacter(lookup: seq<int>, k: nat, chars: seq<byte>, sent: seq<byte>, block: seq<bool>, c: byte)
    requires Spelled(lookup, k, chars, sent, block) && !(0 <= lookup[c] < 256)
    ensures Spelled(lookup, k, chars + [c], sent, block)
  {
    assert (chars + [c])[..|chars|] == chars;
    assert Known(lookup, chars) + [] == Known(lookup, chars);
  }

  lemma CharacterAdded(lookup: seq<int>, k: nat, chars: seq<byte>, sent: seq<byte>, block: seq<bool>, c: byte)
    requires Spelled(lookup, k, chars, sent, block) && 0 <= lookup[c] < 256
    ensures Spelled(lookup, k, chars + [c], sent, block + Bits(lookup[c], k))
  {
    assert (chars + [c])[..|chars|] == chars;
    AllBitsSnoc(Known(lookup, chars), lookup[c], k);
    assert (AllBits(sent, 8) + block) + Bits(lookup[c], k) == AllBits(sent, 8) + (block + Bits(lookup[c], k));
  }

  /** The filled bytes of the buffer join those sent, the rest is dropped at the
      end of the message. */
  lemma BytesOut(lookup: seq<int>, k: nat, chars: seq<byte>, sent: seq<byte>, buf: seq<byte>, block: seq<bool>, m: nat)
    requires Spelled(lookup, k, chars, sent, block) && m <= |buf| && 0 <= |block| - 8 * m < 8
    requires block != [] ==> Packed(buf, 8, block)
    ensures Spelled(lookup, k, chars, sent + buf[..m], block[8 * m..])
    ensures Decoded(lookup, k, chars) == sent + buf[..m]
  {
    hide AllBits, Known, Pow2, BitStrings.Whole, Packed;
    var done := buf[..m];
    if block == [] {
      assert done == [] && sent + done == sent && block[8 * m..] == block;
    } else {
      AllBitsConcat(sent, done, 8);
      PackedWhole(buf, 8, block, m);
      assert AllBits(sent, 8) + block == AllBits(sent + done, 8) + block[8 * m..];
    }
    BytesFit(sent + done);
    WholeBits(sent + done, 8, block[8 * m..]);
  }

  lemma PackedWhole(buf: seq<nat>, w: nat, bits: seq<bool>, m: nat)
    requires Packed(buf, w, bits) && m <= |buf| && w * m <= |bits|
    ensures AllBits(buf[..m], w) == bits[..w * m]
  {
    AllBitsConcat(buf[..m], buf[m..], w);
    assert buf == buf[..m] + buf[m..];
    AllBitsLength(buf[..m], w);
    assert AllBits(buf[..m], w) == AllBits(buf, w)[..w * m];
  }

  // ----- the two cases of depositing a character

  /** value << (8 - newBitPos) into one byte. */
  lemma OneByte(buf: seq<nat>, k: nat, bits: seq<bool>, value: nat, i: nat, t: nat)
    requires 1 <= k <= 7 && value < Pow2(k) && Packed(buf, 8, bits)
    requires i < |buf| && |bits| == 8 * i + t && t + k <= 8
    ensures Shl(value, 8 - t - k) >= 0 && Or(buf[i], Shl(value, 8 - t - k)) < 256
    ensures Packed(buf[i := Or(buf[i], Shl(value, 8 - t - k))], 8, bits + Bits(value, k))
  {
    hide Bits, Pow2, Packed, Or, Shl;
    var n := 8 - t - k;
    ShlGrows(value, n);
    var v := Shl(value, n);
    assert Pow2(n) > 0;
    ShlBound(value, k, 0, n);
    Deposit(buf, 8, bits, i, t, v);
    BitsJoin(value, k, 0, n);
    ZeroBits(n);
    CellBound(buf[i := Or(buf[i], v)], 8, bits + Bits(v, 8 - t), i);
    assert bits + (Bits(value, k) + Zeros(n)) == (bits + Bits(value, k)) + Zeros(n);
    PackedLess(buf[i := Or(buf[i], v)], 8, bits + Bits(value, k), n);
  }

  /** value >> (newBitPos - 8), then the low byte of value << (16 - newBitPos). */
  lemma TwoBytes(buf: seq<nat>, k: nat, bits: seq<bool>, value: nat, i: nat, t: nat)
    requires 1 <= k <= 7 && value < Pow2(k) && Packed(buf, 8, bits)
    requires i + 1 < |buf| && |bits| == 8 * i + t && t < 8 < t + k
    ensures Or(buf[i], Shr(value, t + k - 8)) < 256 && Or(buf[i + 1], LowByte(value, 16 - t - k)) < 256
    ensures Packed(buf[i := Or(buf[i], Shr(value, t + k - 8))][i + 1 := Or(buf[i + 1], LowByte(value, 16 - t - k))],
              8, bits + Bits(value, k))
  {
    hide Bits, Pow2, Packed, Or, Shl, Shr, Low;
    var n := t + k - 8;
    var v, u := Shr(value, n), LowByte(value, 8 - n);
    ShrBound(value, n, 8 - t);
    Deposit(buf, 8, bits, i, t, v);
    BitsShr(value, n, k);
    var high := Bits(value, k)[..8 - t];
    var buf1 := buf[i := Or(buf[i], v)];
    CellBound(buf1, 8, bits + high, i);
    BytePower();
    assert |bits + high| == 8 * (i + 1) + 0;
    Deposit(buf1, 8, bits + high, i + 1, 0, u);
    var buf2 := buf1[i + 1 := Or(buf1[i + 1], u)];
    CellBound(buf2, 8, (bits + high) + Bits(u, 8), i + 1);
    LowerBits(value, k, n);
    SplitBits(bits, Bits(value, k), 8 - t, 8 - n);
    PackedLess(buf2, 8, bits + Bits(value, k), 8 - n);
  }

  /** The last n bits of a character, at the left of a byte. */
  lemma LowerBits(value: nat, k: nat, n: nat)
    requires n <= k && n <= 8
    ensures Bits(LowByte(value, 8 - n), 8) == Bits(value, k)[k - n..] + Zeros(8 - n)
  {
    hide Bits, Pow2, Shl, Low;
    ShlGrows(value, 8 - n);
    BitsLow(Shl(value, 8 - n), 8);
    assert Pow2(8 - n) > 0;
    BitsJoin(value, n, 0, 8 - n);
    ZeroBits(8 - n);
    BitsLast(value, k, n);
  }

  lemma SplitBits(bits: seq<bool>, c: seq<bool>, m: nat, z: nat)
    requires m <= |c|
    ensures (bits + c[..m]) + (c[m..] + Zeros(z)) == (bits + c) + Zeros(z)
  {
  }

  // ----- the decoder

  class Decoder {
    var bitsPerChar: nat
    var lookup: seq<int>
    var bytePos: nat
    var bitPos: nat
    var outputBlockSize: nat
    var outBuf: array<byte>
    /** What has been passed on to the attached transformation. */
    var output: seq<byte>

    /** The characters of the message so far, and what was output before it. */
    ghost var chars: seq<byte>
    ghost var before: seq<byte>
    /** The bytes of the message already output. */
    ghost var sent: seq<byte>
    /** The bits in outBuf, a number of characters. */
    ghost var block: seq<bool>
    ghost var inBlock: nat
    ghost var charsPerBlock: nat

    ghost predicate Set()
      reads this
    {
      && 1 <= bitsPerChar <= 7 && IsTable(lookup, bitsPerChar)
      && outBuf.Length == outputBlockSize
      && IsByteBlock(bitsPerChar, outputBlockSize, charsPerBlock)
      && Spelled(lookup, bitsPerChar, chars, sent, block)
      && output == before + sent
      && Counted(bitsPerChar, |block|, inBlock, bytePos, bitPos)
    }

    ghost predicate Valid()
      reads this, outBuf
    {
      Set() && inBlock < charsPerBlock && (inBlock > 0 ==> Packed(outBuf[..], 8, block))
    }

    constructor ()
    {
      outBuf := new byte[0];
    }

    /** Fails, as the source throws, when Log2Base is out of range. */
    method IsolatedInitialize(decodingLookup: seq<int>, log2Base: int) returns (ok: bool)
      requires 1 <= log2Base <= 7 ==> IsTable(decodingLookup, log2Base)
      modifies this
      ensures ok <==> 1 <= log2Base <= 7
      ensures ok ==> Valid() && fresh(outBuf) && chars == [] && before == output == old(output)
      ensures ok ==> bitsPerChar == log2Base && lookup == decodingLookup
    {
      hide Pow2, IsByteBlock, IsTable, Valid, Set;
      lookup := decodingLookup;
      if log2Base <= 0 || log2Base >= 8 {
        return false;
      }
      bitsPerChar := log2Base;
      outputBlockSize := OutputBlockSize(bitsPerChar);
      charsPerBlock := 8 * outputBlockSize / bitsPerChar;
      outBuf := new byte[outputBlockSize];
      NextMessage();
      return true;
    }

    /** Both positions back to the start of the buffer. */
    method NextMessage()
      requires 1 <= bitsPerChar <= 7 && IsTable(lookup, bitsPerChar)
      requires outBuf.Length == outputBlockSize && IsByteBlock(bitsPerChar, outputBlockSize, charsPerBlock)
      modifies this`bytePos, this`bitPos, this`chars, this`before, this`sent, this`block, this`inBlock
      ensures Valid() && chars == [] && before == output
    {
      hide IsByteBlock, Spelled, Counted, Packed;
      bytePos, bitPos := 0, 0;
      chars, before, sent, block := [], output, [], [];
      inBlock := 0;
      Start(lookup, bitsPerChar, outputBlockSize, charsPerBlock);
    }

    /** memset of the whole buffer. */
    method Clear()
      modifies outBuf
      ensures Packed(outBuf[..], 8, [])
    {
      for i := 0 to outBuf.Length
        invariant forall j :: 0 <= j < i ==> outBuf[j] == 0
      {
        outBuf[i] := 0;
      }
      PackedEmpty(outBuf.Length, 8);
      assert outBuf[..] == seq(outBuf.Length, _ => 0);
    }

    /** Puts one character's bits behind those already held. */
    method PackCharacter(value: nat)
      requires 1 <= bitsPerChar <= 7 && value < Pow2(bitsPerChar) && bitPos < 8
      requires Packed(outBuf[..], 8, block) && |block| == 8 * bytePos + bitPos
      requires |block| + bitsPerChar <= 8 * outBuf.Length
      modifies this`bytePos, this`bitPos, outBuf
      ensures Packed(outBuf[..], 8, block + Bits(value, bitsPerChar))
      ensures |block| + bitsPerChar == 8 * bytePos + bitPos && bitPos < 8
    {
      hide Bits, Packed, Or, Shr, Low, Shl, Pow2;
      ghost var buf := outBuf[..];
      var newBitPos := bitPos + bitsPerChar;
      if newBitPos <= 8 {
        OneByte(buf, bitsPerChar, block, value, bytePos, bitPos);
        outBuf[bytePos] := Or(outBuf[bytePos], Shl(value, 8 - newBitPos));
        assert outBuf[..] == buf[bytePos := Or(buf[bytePos], Shl(value, 8 - newBitPos))];
      } else {
        TwoBytes(buf, bitsPerChar, block, value, bytePos, bitPos);
        outBuf[bytePos] := Or(outBuf[bytePos], Shr(value, newBitPos - 8));
        outBuf[bytePos + 1] := Or(outBuf[bytePos + 1], LowByte(value, 16 - newBitPos));
        assert outBuf[..] == buf[bytePos := Or(buf[bytePos], Shr(value, newBitPos - 8))]
          [bytePos + 1 := Or(buf[bytePos + 1], LowByte(value, 16 - newBitPos))];
      }
      bitPos := newBitPos;
      while bitPos >= 8
        invariant |block| + bitsPerChar == 8 * bytePos + bitPos
        invariant Packed(outBuf[..], 8, block + Bits(value, bitsPerChar))
      {
        bitPos := bitPos - 8;
        bytePos := bytePos + 1;
      }
    }

    method PutCharacter(c: byte)
      requires Valid()
      modifies this`bytePos, this`bitPos, this`output, this`chars, this`sent, this`block, this`inBlock, outBuf
      ensures Valid() && before == old(before) && chars == old(chars) + [c]
    {
      hide Pow2, Spelled, Counted, IsByteBlock, Packed, Known;
      var value := lookup[c];
      if value < 0 || value >= 256 {
        SkipCharacter(lookup, bitsPerChar, chars, sent, block, c);
        chars := chars + [c];
        return;
      }
      Room(bitsPerChar, outputBlockSize, charsPerBlock, |block|, inBlock, bytePos, bitPos);
      if bytePos == 0 && bitPos == 0 {
        Clear();
        assert block == [];
      }
      PackCharacter(value);
      CharacterAdded(lookup, bitsPerChar, chars, sent, block, c);
      chars, block, inBlock := chars + [c], block + Bits(value, bitsPerChar), inBlock + 1;
      AfterCharacter(bitsPerChar, outputBlockSize, charsPerBlock, |block|, inBlock, bytePos, bitPos);
      if bytePos == outputBlockSize {
        Flush();
      }
    }

    method Flush()
      requires Set() && Packed(outBuf[..], 8, block)
      requires bytePos == outputBlockSize && |block| == 8 * outputBlockSize
      modifies this`bytePos, this`bitPos, this`output, this`sent, this`block, this`inBlock
      ensures Valid() && before == old(before) && chars == old(chars)
    {
      hide Pow2, Spelled, Counted, IsByteBlock, Packed, Known, Decoded;
      BytesOut(lookup, bitsPerChar, chars, sent, outBuf[..], block, outputBlockSize);
      assert outBuf[..][..outputBlockSize] == outBuf[..];
      assert block[8 * outputBlockSize..] == [];
      output := output + outBuf[..];
      sent := sent + outBuf[..];
      block, inBlock := [], 0;
      bytePos, bitPos := 0, 0;
      Start(lookup, bitsPerChar, outputBlockSize, charsPerBlock);
    }

    method EndMessage()
      requires Valid()
      modifies this`bytePos, this`bitPos, this`output, this`chars, this`before, this`sent, this`block, this`inBlock
      ensures Valid() && chars == []
      ensures before == output == old(before) + Decoded(lookup, bitsPerChar, old(chars))
    {
      hide Pow2, Spelled, Counted, IsByteBlock, Packed, Known, IsTable, Decoded;
      Room(bitsPerChar, outputBlockSize, charsPerBlock, |block|, inBlock, bytePos, bitPos);
      BytesOut(lookup, bitsPerChar, chars, sent, outBuf[..], block, bytePos);
      assert outBuf[..][..bytePos] == outBuf[..bytePos];
      output := output + outBuf[..bytePos];
      NextMessage();
    }

    /** However the characters are cut into calls, the end of the message emits
        what the whole decodes to. */
    method Put2(begin: seq<byte>, messageEnd: bool)
      requires Valid()
      modifies this`bytePos, this`bitPos, this`output, this`chars, this`before
      modifies this`sent, this`block, this`inBlock, outBuf
      ensures Valid()
      ensures !messageEnd ==> before == old(before) && chars == old(chars) + begin
      ensures messageEnd ==> chars == [] && before == output
      ensures messageEnd ==> output == old(before) + Decoded(lookup, bitsPerChar, old(chars) + begin)
    {
      hide Valid, Decoded, Pow2, IsByteBlock, Spelled, IsTable;
      for i := 0 to |begin|
        invariant Valid() && before == old(before) && chars == old(chars) + begin[..i]
      {
        PutCharacter(begin[i]);
        assert begin[..i + 1] == begin[..i] + [begin[i]];
      }
      assert begin[..|begin|] == begin;
      if messageEnd {
        EndMessage();
      }
    }
  }

  // ----- positions

  lemma Room(k: nat, size: nat, perBlock: nat, bits: nat, chars: nat, bytePos: nat, bitPos: nat)
    requires 1 <= k <= 7 && IsByteBlock(k, size, perBlock) && chars < perBlock
    requires Counted(k, bits, chars, bytePos, bitPos)
    ensures bits + k <= 8 * size && bits == k * chars == 8 * bytePos + bitPos && bitPos < 8
    ensures k * (chars + 1) == k * chars + k
    ensures bits == 0 <==> chars == 0
  {
    Apart(k, chars, perBlock);
    Apart(k, 0, chars);
  }

  lemma AfterCharacter(k: nat, size: nat, perBlock: nat, bits: nat, chars: nat, bytePos: nat, bitPos: nat)
    requires 1 <= k <= 7 && IsByteBlock(k, size, perBlock) && chars <= perBlock && bitPos < 8
    requires bits == k * chars == 8 * bytePos + bitPos && bits <= 8 * size
    ensures Counted(k, bits, chars, bytePos, bitPos) && bytePos <= size
    ensures bytePos == size ==> bitPos == 0
    ensures bytePos < size ==> chars < perBlock
  {
  }

  lemma Start(lookup: seq<int>, k: nat, size: nat, chars: nat)
    requires |lookup| == 256 && IsByteBlock(k, size, chars)
    ensures chars > 0 && Spelled(lookup, k, [], [], []) && Counted(k, 0, 0, 0, 0)
  {
  }
}

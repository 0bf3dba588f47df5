/** BaseN_Encoder (crypto++/basecode.cpp). */
module BaseNEncoder {
  import opened Powers
  import opened BitStrings
  import opened BaseN

  /** The block size computed by the loop of IsolatedInitialize. */
  method OutputBlockSize(k: nat) returns (size: nat)
    requires 1 <= k <= 7
    ensures IsBlockSize(k, size, k * size / 8)
  {
    var i := 8;
    ghost var bytes := 1;
    while i % k != 0
      invariant i == 8 * bytes && 1 <= bytes <= k
      invariant forall n :: 1 <= n < bytes ==> (8 * n) % k != 0
      decreases k - bytes
    {
      i := i + 8;
      bytes := bytes + 1;
    }
    size := i / k;
    assert k * size == 8 * bytes;
  }

  lemma NotMore(k: nat, size: nat, bytes: nat, n: nat)
    requires k >= 1 && n >= 1 && IsBlockSize(k, size, bytes) && (8 * n) % k == 0
    ensures bytes <= n
  {
  }

  /** Eight characters in a block for odd k, four for 2 and 6, two for 4. */
  lemma BlockSizes(k: nat, size: nat)
    requires 1 <= k <= 7 && IsBlockSize(k, size, k * size / 8)
    ensures k % 2 == 1 ==> size == 8
    ensures k == 2 || k == 6 ==> size == 4
    ensures k == 4 ==> size == 2
  {
    var bytes := k * size / 8;
    match k {
      case 1 => NotMore(k, size, bytes, 1);
      case 2 => NotMore(k, size, bytes, 1);
      case 3 => NotMore(k, size, bytes, 3);
      case 4 => NotMore(k, size, bytes, 1);
      case 5 => NotMore(k, size, bytes, 5);
      case 6 => NotMore(k, size, bytes, 3);
      case 7 => NotMore(k, size, bytes, 7);
    }
  }

  /** The characters of the message so far are those sent and those in the
      buffer. */
  lemma LastCharacters(data: seq<byte>, k: nat, sent: seq<nat>, buf: seq<nat>, block: seq<bool>, m: nat)
    requires k >= 1 && (forall v <- sent :: v < Pow2(k)) && AllBits(data, 8) == AllBits(sent, k) + block
    requires Packed(buf, k, block) && m <= |buf| && 0 <= k * m - |block| < k
    ensures Characters(data, k) == sent + buf[..m]
  {
    hide AllBits, Pow2, Groups;
    PackedFront(buf, k, block, m);
    AllBitsConcat(sent, buf[..m], k);
    var pad := k * m - |block|;
    assert AllBits(sent, k) + (block + Zeros(pad)) == AllBits(data, 8) + Zeros(pad);
    forall v <- sent + buf[..m] ensures v < Pow2(k) {
      assert v in sent || v in buf;
    }
    GroupsUnique(sent + buf[..m], k, AllBits(data, 8), pad);
  }

  /** A filled buffer joins the characters sent. */
  lemma FullBlock(data: seq<byte>, k: nat, sent: seq<nat>, buf: seq<nat>, block: seq<bool>)
    requires k >= 1 && (forall v <- sent :: v < Pow2(k)) && AllBits(data, 8) == AllBits(sent, k) + block
    requires Packed(buf, k, block) && |block| == k * |buf|
    ensures forall v <- sent + buf :: v < Pow2(k)
    ensures AllBits(data, 8) == AllBits(sent + buf, k) + []
  {
    hide AllBits, Pow2;
    PackedFront(buf, k, block, |buf|);
    assert buf[..|buf|] == buf;
    AllBitsConcat(sent, buf, k);
    assert block + Zeros(0) == block;
    forall v <- sent + buf ensures v < Pow2(k) {
      assert v in sent || v in buf;
    }
  }

  lemma MapConcat(alphabet: seq<byte>, s: seq<nat>, t: seq<nat>)
    requires forall v <- s + t :: v < |alphabet|
    ensures forall v <- s :: v < |alphabet|
    ensures forall v <- t :: v < |alphabet|
    ensures Map(alphabet, s + t) == Map(alphabet, s) + Map(alphabet, t)
  {
    assert forall v <- s :: v in s + t;
    assert forall v <- t :: v in s + t;
  }

  /** The message is the characters sent and the bits still held. */
  ghost predicate Spelled(alphabet: seq<byte>, k: nat, data: seq<byte>, sent: seq<nat>, block: seq<bool>)
    ensures Spelled(alphabet, k, data, sent, block) ==> forall v <- sent :: v < |alphabet|
  {
    && (forall v <- sent :: v < Pow2(k))
    && (forall v <- sent :: v < |alphabet|)
    && AllBits(data, 8) == AllBits(sent, k) + block
  }

  /** The bits held are whole bytes, and the two positions point behind them. */
  ghost predicate Counted(k: nat, bits: nat, bytes: nat, bytePos: nat, bitPos: nat) {
    bitPos < k && bits == 8 * bytes == k * bytePos + bitPos
  }

  class Encoder {
    var bitsPerChar: nat
    var padding: int
    var alphabet: seq<byte>
    var bytePos: nat
    var bitPos: nat
    var outputBlockSize: nat
    var outBuf: array<byte>
    /** What has been passed on to the attached transformation. */
    var output: seq<byte>

    /** The bytes of the message so far, and what was output before it. */
    ghost var data: seq<byte>
    ghost var before: seq<byte>
    /** The characters of the message already output, a number of blocks. */
    ghost var sent: seq<nat>
    ghost var blocks: nat
    /** The bits in outBuf, a number of bytes. */
    ghost var block: seq<bool>
    ghost var inBlock: nat
    ghost var bytesPerBlock: nat

    ghost predicate Set()
      reads this
    {
      && 1 <= bitsPerChar <= 7 && |alphabet| == Pow2(bitsPerChar) && -1 <= padding < 256
      && outBuf.Length == outputBlockSize
      && IsBlockSize(bitsPerChar, outputBlockSize, bytesPerBlock)
      && Spelled(alphabet, bitsPerChar, data, sent, block)
      && |sent| == outputBlockSize * blocks
      && output == before + Map(alphabet, sent)
      && Counted(bitsPerChar, |block|, inBlock, bytePos, bitPos)
    }

    ghost predicate Valid()
      reads this, outBuf
    {
      Set() && inBlock < bytesPerBlock && (inBlock > 0 ==> Packed(outBuf[..], bitsPerChar, block))
    }

    constructor ()
    {
      outBuf := new byte[0];
    }

    /** Fails, as the source throws, when Log2Base is out of range. */
    method IsolatedInitialize(encodingLookup: seq<byte>, log2Base: int, paddingByte: int) returns (ok: bool)
      requires 1 <= log2Base <= 7 ==> |encodingLookup| == Pow2(log2Base)
      requires -1 <= paddingByte < 256
      modifies this
      ensures ok <==> 1 <= log2Base <= 7
      ensures ok ==> Valid() && fresh(outBuf) && data == [] && before == output == old(output)
      ensures ok ==> bitsPerChar == log2Base && alphabet == encodingLookup && padding == paddingByte
    {
      hide Pow2, IsBlockSize, Valid, Set;
      alphabet := encodingLookup;
      if log2Base <= 0 || log2Base >= 8 {
        return false;
      }
      bitsPerChar := log2Base;
      padding := paddingByte;
      outputBlockSize := OutputBlockSize(bitsPerChar);
      bytesPerBlock := bitsPerChar * outputBlockSize / 8;
      outBuf := new byte[outputBlockSize];
      NextMessage();
      return true;
    }

    /** Both positions back to the start of the buffer. */
    method NextMessage()
      requires 1 <= bitsPerChar <= 7 && |alphabet| == Pow2(bitsPerChar) && -1 <= padding < 256
      requires outBuf.Length == outputBlockSize && IsBlockSize(bitsPerChar, outputBlockSize, bytesPerBlock)
      modifies this`bytePos, this`bitPos, this`data, this`before, this`sent, this`blocks, this`block, this`inBlock
      ensures Valid() && data == [] && before == output
    {
      hide Pow2, IsBlockSize, Spelled, Counted, Map, Packed;
      bytePos, bitPos := 0, 0;
      data, before, sent, block := [], output, [], [];
      blocks, inBlock := 0, 0;
      Start(alphabet, bitsPerChar, outputBlockSize, bytesPerBlock);
    }

    /** The bit loop: one byte into the buffer, where there is room for it. */
    method PackByte(begin: byte)
      requires 1 <= bitsPerChar <= 7 && bitPos < bitsPerChar
      requires Packed(outBuf[..], bitsPerChar, block) && |block| == bitsPerChar * bytePos + bitPos
      requires |block| + 8 <= bitsPerChar * outBuf.Length
      modifies this`bytePos, this`bitPos, outBuf
      ensures Packed(outBuf[..], bitsPerChar, block + Bits(begin, 8))
      ensures |block| + 8 == bitsPerChar * bytePos + bitPos && bitPos < bitsPerChar
    {
      hide Bits, Packed;
      var b: nat, left := begin, 8;
      ghost var rem, done := Bits(b, 8), block;
      assert rem + Zeros(0) == rem;
      while left > 0
        invariant bitPos < bitsPerChar && 0 <= left <= 8 && |rem| == left
        invariant left > 0 ==> b < 256 && Bits(b, 8) == rem + Zeros(8 - left)
        invariant done + rem == block + Bits(begin, 8)
        invariant Packed(outBuf[..], bitsPerChar, done) && |done| == bitsPerChar * bytePos + bitPos
      {
        assert |done| + left == |block| + 8;
        b, left, done, rem := PackStep(b, left, done, rem);
      }
      assert done + rem == done;
    }

    /** One turn of the bit loop: what fits of the left bits of b goes into the
        current character. */
    method PackStep(b: nat, left: nat, ghost done: seq<bool>, ghost rem: seq<bool>)
      returns (b2: nat, left2: nat, ghost done2: seq<bool>, ghost rem2: seq<bool>)
      requires 1 <= bitsPerChar <= 7 && bitPos < bitsPerChar && 1 <= left <= 8 && |rem| == left
      requires b < 256 && Bits(b, 8) == rem + Zeros(8 - left)
      requires Packed(outBuf[..], bitsPerChar, done) && |done| == bitsPerChar * bytePos + bitPos
      requires |done| + left <= bitsPerChar * outBuf.Length
      modifies this`bytePos, this`bitPos, outBuf
      ensures bitPos < bitsPerChar && left2 < left && |rem2| == left2 && done2 + rem2 == done + rem
      ensures left2 > 0 ==> b2 < 256 && Bits(b2, 8) == rem2 + Zeros(8 - left2)
      ensures Packed(outBuf[..], bitsPerChar, done2) && |done2| == bitsPerChar * bytePos + bitPos
    {
      hide Bits, Packed, Or, Shr, Low, Shl, LowByte, Pow2;
      var k := bitsPerChar;
      var target := k - bitPos;
      RoomLeft(k, bytePos, outBuf.Length);
      EncoderStep(outBuf[..], k, done, b, rem, bytePos, bitPos);
      ghost var buf := outBuf[..];
      outBuf[bytePos] := Or(outBuf[bytePos], Shr(b, 8 - target));
      assert outBuf[..] == buf[bytePos := Or(buf[bytePos], Shr(b, 8 - target))];
      if left >= target {
        bitPos := 0;
        bytePos := bytePos + 1;
        assert k * bytePos == k * (bytePos - 1) + k;
        left2, b2 := left - target, LowByte(b, target);
        done2, rem2 := done + rem[..target], rem[target..];
      } else {
        bitPos := bitPos + left;
        left2, b2 := 0, b;
        done2, rem2 := done + rem, [];
      }
    }

    /** Replaces the first n values by characters. */
    method MapBlock(n: nat)
      requires n <= outBuf.Length && forall i :: 0 <= i < n ==> outBuf[i] < |alphabet|
      modifies outBuf
      ensures forall i :: 0 <= i < n ==> outBuf[i] == alphabet[old(outBuf[i])]
    {
      for i := 0 to n
        invariant forall j :: 0 <= j < i ==> outBuf[j] == alphabet[old(outBuf[j])]
        invariant forall j :: i <= j < outBuf.Length ==> outBuf[j] == old(outBuf[j])
      {
        outBuf[i] := alphabet[outBuf[i]];
      }
    }

    /** memset of the whole buffer. */
    method Clear()
      modifies outBuf
      ensures Packed(outBuf[..], bitsPerChar, [])
    {
      for i := 0 to outBuf.Length
        invariant forall j :: 0 <= j < i ==> outBuf[j] == 0
      {
        outBuf[i] := 0;
      }
      PackedEmpty(outBuf.Length, bitsPerChar);
      assert outBuf[..] == seq(outBuf.Length, _ => 0);
    }

    method Flush()
      requires Set() && Packed(outBuf[..], bitsPerChar, block)
      requires bytePos == outputBlockSize && |block| == bitsPerChar * outputBlockSize
      modifies this`bytePos, this`bitPos, this`output, this`sent, this`blocks, this`block, this`inBlock, outBuf
      ensures Valid() && before == old(before) && data == old(data)
    {
      hide Pow2, Spelled, Counted, IsBlockSize, Map, Packed;
      ghost var values: seq<nat> := outBuf[..];
      CellsBelow(values, bitsPerChar, block);
      BlockSent(alphabet, bitsPerChar, data, sent, values, block);
      MapBlock(outputBlockSize);
      MapAt(alphabet, values);
      assert outBuf[..] == Map(alphabet, values);
      output := output + outBuf[..];
      sent, blocks := sent + values, blocks + 1;
      block, inBlock := [], 0;
      bytePos, bitPos := 0, 0;
      Start(alphabet, bitsPerChar, outputBlockSize, bytesPerBlock);
      assert outputBlockSize * blocks == outputBlockSize * (blocks - 1) + outputBlockSize;
    }

    method PutByte(b: byte)
      requires Valid()
      modifies this`bytePos, this`bitPos, this`output, this`data, this`sent
      modifies this`blocks, this`block, this`inBlock, outBuf
      ensures Valid() && before == old(before) && data == old(data) + [b]
    {
      hide Pow2, Spelled, Counted, IsBlockSize, Map, Packed;
      Room(bitsPerChar, outputBlockSize, bytesPerBlock, |block|, inBlock, bytePos, bitPos);
      if bytePos == 0 {
        Clear();
        assert block == [];
      }
      PackByte(b);
      ByteAdded(alphabet, bitsPerChar, data, sent, block, b);
      data, block, inBlock := data + [b], block + Bits(b, 8), inBlock + 1;
      AfterByte(bitsPerChar, outputBlockSize, bytesPerBlock, |block|, inBlock, bytePos, bitPos);
      if bytePos == outputBlockSize {
        Flush();
      }
    }

    /** Fills the rest of a begun block with padding. */
    method PadBlock()
      requires bytePos <= outputBlockSize == outBuf.Length && -1 <= padding < 256
      modifies this`bytePos, outBuf
      ensures bytePos <= outBuf.Length
      ensures outBuf[..bytePos] == old(outBuf[..bytePos]) + LastPadding(padding, outputBlockSize, old(bytePos))
    {
      if padding != -1 && bytePos > 0 {
        var start := bytePos;
        ghost var chars := outBuf[..start];
        for i := start to outputBlockSize
          invariant outBuf[..i] == chars + Repeat(padding, i - start)
        {
          outBuf[i] := padding;
          assert outBuf[..i + 1] == outBuf[..i] + [padding];
          assert Repeat(padding, i + 1 - start) == Repeat(padding, i - start) + [padding];
        }
        bytePos := outputBlockSize;
      }
    }

    /** Turns the values in the buffer, the last one perhaps partial, into
        characters. */
    method MapLastBlock()
      requires Valid()
      modifies this`bytePos, outBuf
      ensures bytePos <= outBuf.Length
      ensures EncodedMessage(alphabet, bitsPerChar, padding, outputBlockSize, data) ==
        Map(alphabet, sent) + (outBuf[..bytePos] + LastPadding(padding, outputBlockSize, bytePos))
    {
      hide Pow2, Spelled, Counted, IsBlockSize, Map, Packed, EncodedMessage;
      Room(bitsPerChar, outputBlockSize, bytesPerBlock, |block|, inBlock, bytePos, bitPos);
      AfterByte(bitsPerChar, outputBlockSize, bytesPerBlock, |block|, inBlock, bytePos, bitPos);
      if bitPos > 0 {
        assert bitsPerChar * (bytePos + 1) == bitsPerChar * bytePos + bitsPerChar;
        bytePos := bytePos + 1;
      }
      ghost var values: seq<nat> := outBuf[..bytePos];
      EndOfMessage(alphabet, bitsPerChar, padding, outputBlockSize, data, sent, blocks, outBuf[..], block, bytePos);
      MapBlock(bytePos);
      MapAt(alphabet, values);
      assert outBuf[..bytePos] == Map(alphabet, values);
    }

    method EndMessage()
      requires Valid()
      modifies this`bytePos, this`bitPos, this`output, this`data, this`before
      modifies this`sent, this`blocks, this`block, this`inBlock, outBuf
      ensures Valid() && data == []
      ensures before == output ==
        old(before) + EncodedMessage(alphabet, bitsPerChar, padding, outputBlockSize, old(data))
    {
      hide Pow2, Spelled, Counted, IsBlockSize, Map, Packed, EncodedMessage, LastPadding;
      MapLastBlock();
      PadBlock();
      output := output + outBuf[..bytePos];
      NextMessage();
    }

    /** However the message is cut into calls, its end emits the coding of the
        whole. */
    method Put2(begin: seq<byte>, messageEnd: bool)
      requires Valid()
      modifies this`bytePos, this`bitPos, this`output, this`data, this`before
      modifies this`sent, this`blocks, this`block, this`inBlock, outBuf
      ensures Valid()
      ensures !messageEnd ==> before == old(before) && data == old(data) + begin
      ensures messageEnd ==> data == [] && before == output
      ensures messageEnd ==>
        output == old(before) + EncodedMessage(alphabet, bitsPerChar, padding, outputBlockSize, old(data) + begin)
    {
      hide Valid, EncodedMessage, Pow2, IsBlockSize, Map, Spelled;
      for i := 0 to |begin|
        invariant Valid() && before == old(before) && data == old(data) + begin[..i]
      {
        PutByte(begin[i]);
        assert begin[..i + 1] == begin[..i] + [begin[i]];
      }
      assert begin[..|begin|] == begin;
      if messageEnd {
        EndMessage();
      }
    }
  }

  lemma Start(alphabet: seq<byte>, k: nat, size: nat, bytes: nat)
    requires k >= 1 && IsBlockSize(k, size, bytes)
    ensures bytes > 0 && Spelled(alphabet, k, [], [], []) && Counted(k, 0, 0, 0, 0) && size * 0 == 0
    ensures Map(alphabet, []) == []
  {
  }

  lemma {:induction false} RoomLeft(k: nat, i: nat, n: nat)
    ensures k * i < k * n ==> i < n
  {
    Apart(k, n, i);
  }

  lemma CellsBelow(buf: seq<nat>, k: nat, bits: seq<bool>)
    requires Packed(buf, k, bits)
    ensures forall i :: 0 <= i < |buf| ==> buf[i] < Pow2(k)
    ensures forall v <- buf :: v < Pow2(k)
  {
    assert forall i :: 0 <= i < |buf| ==> buf[i] in buf;
  }

  lemma MapAt(alphabet: seq<byte>, s: seq<nat>)
    requires forall v <- s :: v < |alphabet|
    ensures forall i :: 0 <= i < |s| ==> s[i] < |alphabet| && Map(alphabet, s)[i] == alphabet[s[i]]
  {
    assert forall i :: 0 <= i < |s| ==> s[i] in s;
  }

  lemma BlockSent(alphabet: seq<byte>, k: nat, data: seq<byte>, sent: seq<nat>, values: seq<nat>, block: seq<bool>)
    requires k >= 1 && |alphabet| == Pow2(k) && Spelled(alphabet, k, data, sent, block)
    requires Packed(values, k, block) && |block| == k * |values|
    ensures Spelled(alphabet, k, data, sent + values, [])
    ensures forall v <- values :: v < |alphabet|
    ensures Map(alphabet, sent + values) == Map(alphabet, sent) + Map(alphabet, values)
  {
    FullBlock(data, k, sent, values, block);
    MapConcat(alphabet, sent, values);
  }

  lemma ByteAdded(alphabet: seq<byte>, k: nat, data: seq<byte>, sent: seq<nat>, block: seq<bool>, b: byte)
    requires Spelled(alphabet, k, data, sent, block)
    ensures Spelled(alphabet, k, data + [b], sent, block + Bits(b, 8))
  {
    AllBitsSnoc(data, b, 8);
    assert (AllBits(sent, k) + block) + Bits(b, 8) == AllBits(sent, k) + (block + Bits(b, 8));
  }

  /** An unfinished block has room for one more byte, and an empty first
      character means an empty block. */
  lemma Room(k: nat, size: nat, perBlock: nat, bits: nat, bytes: nat, bytePos: nat, bitPos: nat)
    requires 1 <= k <= 7 && IsBlockSize(k, size, perBlock) && bytes < perBlock
    requires Counted(k, bits, bytes, bytePos, bitPos)
    ensures bits + 8 <= k * size && bits == 8 * bytes == k * bytePos + bitPos && bitPos < k
    ensures bytePos == 0 <==> bytes == 0
    ensures bits == 0 <==> bytes == 0
  {
  }

  lemma AfterByte(k: nat, size: nat, perBlock: nat, bits: nat, bytes: nat, bytePos: nat, bitPos: nat)
    requires 1 <= k <= 7 && IsBlockSize(k, size, perBlock) && bytes <= perBlock && bitPos < k
    requires bits == 8 * bytes == k * bytePos + bitPos
    ensures Counted(k, bits, bytes, bytePos, bitPos) && bytePos <= size
    ensures bytePos == size ==> bits == k * size
    ensures bytePos < size ==> bytes < perBlock
  {
    Apart(k, size, bytePos);
    Apart(k, bytePos, size);
  }

  function LastPadding(padding: int, size: nat, used: nat): seq<byte>
    requires -1 <= padding < 256 && used <= size
  {
    if padding != -1 && used > 0 then Repeat(padding, size - used) else []
  }

  lemma EndOfMessage(alphabet: seq<byte>, k: nat, padding: int, size: nat, data: seq<byte>, sent: seq<nat>, blocks: nat,
                     buf: seq<nat>, block: seq<bool>, m: nat)
    requires k >= 1 && |alphabet| == Pow2(k) && Spelled(alphabet, k, data, sent, block) && -1 <= padding < 256
    requires m <= |buf| == size && size >= 1 && |sent| == size * blocks
    requires 0 <= k * m - |block| < k && (block != [] ==> Packed(buf, k, block))
    ensures forall v <- buf[..m] :: v < |alphabet|
    ensures forall i :: 0 <= i < m ==> buf[i] < |alphabet|
    ensures EncodedMessage(alphabet, k, padding, size, data) ==
      Map(alphabet, sent) + (Map(alphabet, buf[..m]) + LastPadding(padding, size, m))
  {
    hide Pow2, AllBits, Groups, Map, PadLength, Packed;
    var last := buf[..m];
    if block == [] {
      Apart(k, 0, m);
      assert sent + last == sent;
      assert AllBits(sent, k) + [] == AllBits(sent, k);
      assert AllBits(sent, k) == AllBits(data, 8) + Zeros(0);
      GroupsUnique(sent, k, AllBits(data, 8), 0);
    } else {
      CellsBelow(buf, k, block);
      LastCharacters(data, k, sent, buf, block, m);
    }
    forall v <- sent + last ensures v < |alphabet| {
      assert v in sent || v in last;
    }
    MapConcat(alphabet, sent, last);
    PadOfLast(size, blocks, m);
  }
}

/** BaseN_Decoder::InitializeDecodingLookupArray, and encoder and decoder
    together (crypto++/basecode.cpp). */
module BaseNTransfer {
  import opened Powers
  import opened BitStrings
  import opened Pieces
  import opened BaseN
  import opened BaseNEncoder
  import opened BaseNDecoder

  // ----- the lookup table

  predicate IsAlpha(c: byte) {
    65 <= c <= 90 || 97 <= c <= 122
  }

  function ToUpper(c: byte): byte {
    if 97 <= c <= 122 then c - 32 else c
  }

  function ToLower(c: byte): byte {
    if 65 <= c <= 90 then c + 32 else c
  }

  /** c is read as the character a of the alphabet. */
  predicate ReadAs(c: byte, a: byte, caseInsensitive: bool) {
    c == a || (caseInsensitive && IsAlpha(a) && IsAlpha(c) && ToUpper(c) == ToUpper(a))
  }

  /** Without regard to case, the 26 letters are read as each other's small or
      capital form, and everything else only as itself. */
  lemma ReadAsLetters(c: byte, a: byte)
    ensures ReadAs(c, a, false) <==> c == a
    ensures ReadAs(c, a, true) <==> c == a || exists i :: 0 <= i < 26 && SameLetter(c, a, i)
  {
    if 65 <= c <= 90 {
      assert SameLetter(c, a, c - 65) <==> a == c || a == c + 32;
    } else if 97 <= c <= 122 {
      assert SameLetter(c, a, c - 97) <==> a == c || a == c - 32;
    }
  }

  /** Both are letter i of the alphabet. */
  predicate SameLetter(c: byte, a: byte, i: int) {
    (c == 65 + i || c == 97 + i) && (a == 65 + i || a == 97 + i)
  }

  /** The last position of the alphabet that c is read as. */
  function LastIndex(alphabet: seq<byte>, c: byte, caseInsensitive: bool): (i: int)
    ensures -1 <= i < |alphabet|
    ensures i >= 0 ==> ReadAs(c, alphabet[i], caseInsensitive)
    ensures forall j :: i < j < |alphabet| ==> !ReadAs(c, alphabet[j], caseInsensitive)
  {
    if alphabet == [] then -1
    else if ReadAs(c, alphabet[|alphabet| - 1], caseInsensitive) then |alphabet| - 1
    else LastIndex(alphabet[..|alphabet| - 1], c, caseInsensitive)
  }

  lemma LastIndexSnoc(alphabet: seq<byte>, a: byte, c: byte, caseInsensitive: bool)
    ensures LastIndex(alphabet + [a], c, caseInsensitive) ==
      if ReadAs(c, a, caseInsensitive) then |alphabet| else LastIndex(alphabet, c, caseInsensitive)
  {
    assert (alphabet + [a])[..|alphabet|] == alphabet;
  }

  method InitializeDecodingLookupArray(lookup: array<int>, alphabet: seq<byte>, base: nat, caseInsensitive: bool)
    requires lookup.Length == 256 && base <= |alphabet|
    modifies lookup
    ensures forall c: byte :: lookup[c] == LastIndex(alphabet[..base], c, caseInsensitive)
  {
    for i := 0 to 256
      invariant forall j :: 0 <= j < i ==> lookup[j] == -1
    {
      lookup[i] := -1;
    }
    for i := 0 to base
      invariant forall c: byte :: lookup[c] == LastIndex(alphabet[..i], c, caseInsensitive)
    {
      hide LastIndex;
      forall c: byte ensures LastIndex(alphabet[..i + 1], c, caseInsensitive) ==
        if ReadAs(c, alphabet[i], caseInsensitive) then i else LastIndex(alphabet[..i], c, caseInsensitive)
      {
        LastIndexSnoc(alphabet[..i], alphabet[i], c, caseInsensitive);
        assert alphabet[..i + 1] == alphabet[..i] + [alphabet[i]];
      }
      if caseInsensitive && IsAlpha(alphabet[i]) {
        lookup[ToUpper(alphabet[i])] := i;
        lookup[ToLower(alphabet[i])] := i;
      } else {
        lookup[alphabet[i]] := i;
      }
    }
  }

  ghost predicate NoRepeats(alphabet: seq<byte>, caseInsensitive: bool) {
    forall i, j :: 0 <= i < j < |alphabet| ==> !ReadAs(alphabet[i], alphabet[j], caseInsensitive)
  }

  ghost predicate TableOf(lookup: seq<int>, alphabet: seq<byte>, caseInsensitive: bool) {
    |lookup| == 256 && forall c: byte :: lookup[c] == LastIndex(alphabet, c, caseInsensitive)
  }

  /** The table that is built is one for the decoder; it undoes the alphabet
      exactly when no character of the alphabet repeats, up to case where case
      is ignored; and it skips exactly what is not read as one of them. */
  lemma TableMatches(lookup: seq<int>, alphabet: seq<byte>, k: nat, caseInsensitive: bool)
    requires |alphabet| == Pow2(k) && TableOf(lookup, alphabet, caseInsensitive)
    ensures IsTable(lookup, k)
    ensures Matches(lookup, alphabet, k) <==> NoRepeats(alphabet, caseInsensitive)
    ensures forall c: byte :: lookup[c] < 0 <==>
              forall i :: 0 <= i < |alphabet| ==> !ReadAs(c, alphabet[i], caseInsensitive)
  {
    hide LastIndex, Pow2, ReadAs;
    forall i: byte ensures lookup[i] < Pow2(k) {
      assert lookup[i] == LastIndex(alphabet, i, caseInsensitive);
    }
    if Matches(lookup, alphabet, k) {
      forall i, j | 0 <= i < j < |alphabet| ensures !ReadAs(alphabet[i], alphabet[j], caseInsensitive) {
        assert lookup[alphabet[i]] == LastIndex(alphabet, alphabet[i], caseInsensitive);
      }
    }
    if NoRepeats(alphabet, caseInsensitive) {
      forall i | 0 <= i < |alphabet| ensures lookup[alphabet[i]] == i {
        assert lookup[alphabet[i]] == LastIndex(alphabet, alphabet[i], caseInsensitive);
        SelfRead(alphabet[i], caseInsensitive);
        var last := LastIndex(alphabet, alphabet[i], caseInsensitive);
        assert !(i < last < |alphabet|);
      }
    }
  }

  lemma SelfRead(c: byte, caseInsensitive: bool)
    ensures ReadAs(c, c, caseInsensitive)
  {
  }

  /** Read without case, the alphabet A, a makes both stand for 1. */
  lemma RepeatedCharacter(lookup: seq<int>)
    requires TableOf(lookup, [65, 97], true)
    ensures lookup[65] == 1 && !Matches(lookup, [65, 97], 1) && NoRepeats([65, 97], false)
  {
    var a: seq<byte> := [65, 97];
    assert ReadAs(65, a[1], true);
    assert lookup[a[0]] == LastIndex(a, 65, true) == 1;
  }

  // ----- whole streams

  /** A message put into the encoder piece by piece. */
  method EncodePieces(enc: Encoder, pieces: seq<seq<byte>>, last: seq<byte>)
    requires enc.Valid() && enc.data == [] && enc.before == enc.output
    modifies enc`bytePos, enc`bitPos, enc`output, enc`data, enc`before
    modifies enc`sent, enc`blocks, enc`block, enc`inBlock, enc.outBuf
    ensures enc.Valid() && enc.data == [] && enc.before == enc.output
    ensures enc.output == old(enc.output) +
      EncodedMessage(enc.alphabet, enc.bitsPerChar, enc.padding, enc.outputBlockSize, Concat(pieces) + last)
  {
    hide EncodedMessage, Pow2, IsBlockSize, BaseNEncoder.Spelled, BaseNEncoder.Counted, Packed, Map;
    for i := 0 to |pieces|
      invariant enc.Valid() && enc.before == old(enc.output) && enc.data == Concat(pieces[..i])
    {
      enc.Put2(pieces[i], false);
      assert pieces[..i + 1][..i] == pieces[..i];
    }
    assert pieces[..|pieces|] == pieces;
    enc.Put2(last, true);
  }

  /** Characters put into the decoder in pieces of the given sizes. */
  method DecodePieces(dec: Decoder, text: seq<byte>, sizes: seq<nat>)
    requires dec.Valid() && dec.chars == [] && dec.before == dec.output
    modifies dec`bytePos, dec`bitPos, dec`output, dec`chars, dec`before, dec`sent, dec`block, dec`inBlock, dec.outBuf
    ensures dec.Valid() && dec.chars == [] && dec.before == dec.output
    ensures dec.output == old(dec.output) + Decoded(dec.lookup, dec.bitsPerChar, text)
  {
    hide Decoded, Pow2, IsByteBlock, BaseNDecoder.Spelled, BaseNDecoder.Counted, Packed;
    var done := 0;
    for i := 0 to |sizes|
      invariant done <= |text|
      invariant dec.Valid() && dec.before == old(dec.output) && dec.chars == text[..done]
    {
      var next := if sizes[i] <= |text| - done then done + sizes[i] else |text|;
      dec.Put2(text[done..next], false);
      assert text[..next] == text[..done] + text[done..next];
      done := next;
    }
    assert text == text[..done] + text[done..];
    dec.Put2(text[done..], true);
  }

  /** What goes into the encoder, in whatever pieces, comes out of the decoder,
      whatever pieces it is given, and both are ready for the next message. */
  method Transfer(enc: Encoder, dec: Decoder, pieces: seq<seq<byte>>, last: seq<byte>, sizes: seq<nat>)
    requires enc.Valid() && enc.data == [] && enc.before == enc.output
    requires dec.Valid() && dec.chars == [] && dec.before == dec.output && enc.outBuf != dec.outBuf
    requires enc.bitsPerChar == dec.bitsPerChar && Matches(dec.lookup, enc.alphabet, enc.bitsPerChar)
    requires enc.padding == -1 || !(0 <= dec.lookup[enc.padding] < 256)
    modifies enc`bytePos, enc`bitPos, enc`output, enc`data, enc`before
    modifies enc`sent, enc`blocks, enc`block, enc`inBlock, enc.outBuf
    modifies dec`bytePos, dec`bitPos, dec`output, dec`chars, dec`before, dec`sent, dec`block, dec`inBlock, dec.outBuf
    ensures enc.Valid() && enc.data == [] && enc.before == enc.output
    ensures dec.Valid() && dec.chars == [] && dec.before == dec.output
    ensures dec.output == old(dec.output) + (Concat(pieces) + last)
  {
    hide Decoded, EncodedMessage, Pow2, IsByteBlock, Matches, BaseNEncoder.Spelled, BaseNEncoder.Counted,
      BaseNDecoder.Spelled, BaseNDecoder.Counted, Packed, Map;
    var start := |enc.output|;
    EncodePieces(enc, pieces, last);
    var text := enc.output[start..];
    MessageRoundTrip(dec.lookup, enc.alphabet, enc.bitsPerChar, enc.padding, enc.outputBlockSize,
      Concat(pieces) + last);
    DecodePieces(dec, text, sizes);
  }

  lemma MessageRoundTrip(lookup: seq<int>, alphabet: seq<byte>, k: nat, padding: int, size: nat, data: seq<byte>)
    requires 1 <= k <= 7 && Matches(lookup, alphabet, k) && -1 <= padding < 256 && size >= 1
    requires padding == -1 || !(0 <= lookup[padding] < 256)
    ensures Decoded(lookup, k, EncodedMessage(alphabet, k, padding, size, data)) == data
  {
    hide Decoded, Pow2, Map, Known;
    if padding == -1 {
      RoundTrip(lookup, alphabet, k, data, 0, 0);
      assert Repeat(0, 0) == [];
    } else {
      RoundTrip(lookup, alphabet, k, data, padding, PadLength(size, |Characters(data, k)|));
    }
  }
}

/** The DES ciphers as block operations of the chaining modes: which of them may
    work in place in CFB mode (crypto++/modes.cpp, crypto++/des.cpp,
    crypto++/strciphr.cpp). */
module DesModes {
  import opened DesKeys
  import opened Des
  import opened DesCiphers
  import opened BlockModes

  /** ProcessAndXorBlock of a cipher that reads its xor block last. */
  function PlainOp(E: Block -> Block): BlockOp<Block> {
    InTime((b, x) => Xor(E(b), x))
  }

  /** ProcessAndXorBlock of DES-XEX3: the first xor has put the whitened input
      into the output block before the xor block is read. */
  function WhitenedOp(E: Block -> Block, x1: Block): BlockOp<Block> {
    BlockOp((b, x) => Xor(E(b), x), (b, _) => Xor(E(b), Xor(b, x1)))
  }

  function Applied(op: BlockOp<Block>, xorIsOut: bool, b: Block, x: Block): Block {
    op.At(xorIsOut)(b, x)
  }

  lemma PlainApplied(E: Block -> Block, xorIsOut: bool, b: Block, x: Block)
    ensures Applied(PlainOp(E), xorIsOut, b, x) == Masked(E(b), x)
  {
  }

  lemma WhitenedApplied(E: Block -> Block, x1: Block, xorIsOut: bool, b: Block, x: Block)
    ensures Applied(WhitenedOp(E, x1), xorIsOut, b, x) == Masked(E(b), if xorIsOut then Xor(b, x1) else x)
  {
  }

  // ----- what the ciphers do on one block

  method DesStep(cipher: DES, ghost E: Block -> Block, inBlock: array<bv8>, xorBlock: array<bv8>, outBlock: array<bv8>)
    requires inBlock.Length == 8 && xorBlock.Length == 8 && outBlock.Length == 8 && cipher.Valid()
    requires forall b :: E(b) == DesBlock(cipher.raw.Spbox, cipher.dir, cipher.key, b)
    modifies outBlock
    ensures outBlock[..] == Applied(PlainOp(E), xorBlock == outBlock, old(inBlock[..]), old(xorBlock[..]))
  {
    hide DesBlock, Xor, PlainOp, Applied;
    PlainApplied(E, xorBlock == outBlock, inBlock[..], xorBlock[..]);
    cipher.ProcessAndXorBlock(inBlock, xorBlock, outBlock);
  }

  method Ede2Step(
    cipher: DES_EDE2, ghost E: Block -> Block, inBlock: array<bv8>, xorBlock: array<bv8>, outBlock: array<bv8>)
    requires inBlock.Length == 8 && xorBlock.Length == 8 && outBlock.Length == 8 && cipher.Valid()
    requires forall b :: E(b) == Ede2Block(cipher.des1.Spbox, cipher.dir, cipher.key, b)
    modifies outBlock
    ensures outBlock[..] == Applied(PlainOp(E), xorBlock == outBlock, old(inBlock[..]), old(xorBlock[..]))
  {
    hide Ede2Block, Xor, PlainOp, Applied;
    PlainApplied(E, xorBlock == outBlock, inBlock[..], xorBlock[..]);
    cipher.ProcessAndXorBlock(inBlock, xorBlock, outBlock);
  }

  method Ede3Step(
    cipher: DES_EDE3, ghost E: Block -> Block, inBlock: array<bv8>, xorBlock: array<bv8>, outBlock: array<bv8>)
    requires inBlock.Length == 8 && xorBlock.Length == 8 && outBlock.Length == 8 && cipher.Valid()
    requires forall b :: E(b) == Ede3Block(cipher.des1.Spbox, cipher.dir, cipher.key, b)
    modifies outBlock
    ensures outBlock[..] == Applied(PlainOp(E), xorBlock == outBlock, old(inBlock[..]), old(xorBlock[..]))
  {
    hide Ede3Block, Xor, PlainOp, Applied;
    PlainApplied(E, xorBlock == outBlock, inBlock[..], xorBlock[..]);
    cipher.ProcessAndXorBlock(inBlock, xorBlock, outBlock);
  }

  method Xex3Step(
    cipher: DES_XEX3, ghost E: Block -> Block, inBlock: array<bv8>, xorBlock: array<bv8>, outBlock: array<bv8>)
    requires inBlock.Length == 8 && xorBlock.Length == 8 && outBlock.Length == 8 && cipher.Valid()
    requires forall b :: E(b) == Xex3Block(cipher.des.raw.Spbox, cipher.dir, cipher.key, b)
    modifies outBlock
    ensures outBlock[..] == Applied(WhitenedOp(E, cipher.x1), xorBlock == outBlock, old(inBlock[..]), old(xorBlock[..]))
  {
    hide Xex3Block, Xor, WhitenedOp, Applied;
    WhitenedApplied(E, cipher.x1, xorBlock == outBlock, inBlock[..], xorBlock[..]);
    cipher.ProcessAndXorBlock(inBlock, xorBlock, outBlock);
  }

  /** The step under BT_XorInput: xorbuf, then ProcessBlock in place. */
  method XorInputStep(cipher: DES, inBlock: array<bv8>, xorBlock: array<bv8>, outBlock: array<bv8>)
    requires inBlock.Length == 8 && xorBlock.Length == 8 && outBlock.Length == 8 && cipher.Valid()
    modifies outBlock
    ensures outBlock[..] ==
      DesBlock(cipher.raw.Spbox, cipher.dir, cipher.key, Xor(old(xorBlock[..]), old(inBlock[..])))
  {
    hide DesBlock;
    for i := 0 to 8
      invariant forall j :: 0 <= j < i ==> outBlock[j] == old(xorBlock[j]) ^ old(inBlock[j])
      invariant forall j :: i <= j < 8 ==> inBlock[j] == old(inBlock[j]) && xorBlock[j] == old(xorBlock[j])
    {
      outBlock[i] := xorBlock[i] ^ inBlock[i];
    }
    assert outBlock[..] == Xor(old(xorBlock[..]), old(inBlock[..]));
    cipher.ProcessAndXorBlock(outBlock, null, outBlock);
  }

  // ----- which of them tolerate working in place

  lemma PlainTolerant(E: Block -> Block)
    ensures Tolerant(PlainOp(E))
  {
  }

  /** No cipher and no key make the whitened form tolerate it: in-place CFB is
      wrong for some message. */
  lemma WhitenedIntolerant(E: Block -> Block, x1: Block)
    ensures !Tolerant(WhitenedOp(E, x1))
    ensures exists iv, p :: !SameChain(Flip(WhitenedOp(E, x1).aliased), Flip(WhitenedOp(E, x1).apart), iv, p)
  {
    hide Xor;
    var op, other := WhitenedOp(E, x1), Another(Xor(Zeros8, x1));
    XorInjective(E(Zeros8), other, Xor(Zeros8, x1));
    assert op.aliased(Zeros8, other) != op.apart(Zeros8, other);
    CfbInPlaceExact(op);
  }

  function Another(b: Block): (c: Block)
    ensures c != b
  {
    if b == Zeros8 then [1, 0, 0, 0, 0, 0, 0, 0] else Zeros8
  }

  /** Each block of the message is the whitened ciphertext block before it, or
      the whitened register. */
  ghost predicate Foreseen(E: Block -> Block, x1: Block, iv: Block, p: seq<Block>) {
    forall i :: 0 <= i < |p| ==> p[i] == Xor(Last(iv, Chain(Flip(WhitenedOp(E, x1).apart), iv, p[..i])), x1)
  }

  /** Exactly on those messages is in-place CFB over DES-XEX3 right. */
  lemma {:induction false} WhitenedExact(E: Block -> Block, x1: Block, iv: Block, p: seq<Block>)
    ensures SameChain(Flip(WhitenedOp(E, x1).aliased), Flip(WhitenedOp(E, x1).apart), iv, p) <==> Foreseen(E, x1, iv, p)
  {
    hide Xor;
    if p != [] {
      var n := |p| - 1;
      var f, g := Flip(WhitenedOp(E, x1).aliased), Flip(WhitenedOp(E, x1).apart);
      WhitenedExact(E, x1, iv, p[..n]);
      var before := Last(iv, Chain(g, iv, p[..n]));
      XorInjective(E(before), p[n], Xor(before, x1));
      assert Chain(f, iv, p)[..n] == Chain(f, iv, p[..n]) && Chain(g, iv, p)[..n] == Chain(g, iv, p[..n]);
      ForeseenSnoc(E, x1, iv, p);
    }
  }

  lemma ForeseenSnoc(E: Block -> Block, x1: Block, iv: Block, p: seq<Block>)
    requires p != []
    ensures var n := |p| - 1;
      Foreseen(E, x1, iv, p) <==>
        Foreseen(E, x1, iv, p[..n]) && p[n] == Xor(Last(iv, Chain(Flip(WhitenedOp(E, x1).apart), iv, p[..n])), x1)
  {
    hide Xor, Chain;
    var n := |p| - 1;
    assert forall i :: 0 <= i < n ==> p[..n][i] == p[i] && p[..n][..i] == p[..i];
  }

  /** Worse, the ciphertext of in-place CFB then says nothing of the message: any
      two of equal length give the same. */
  lemma {:induction false} WhitenedLosesMessage(E: Block -> Block, x1: Block, iv: Block, p: seq<Block>, q: seq<Block>)
    requires |p| == |q|
    ensures Chain(Flip(WhitenedOp(E, x1).aliased), iv, p) == Chain(Flip(WhitenedOp(E, x1).aliased), iv, q)
  {
    hide Xor;
    if p != [] {
      WhitenedLosesMessage(E, x1, iv, p[..|p| - 1], q[..|q| - 1]);
    }
  }
}

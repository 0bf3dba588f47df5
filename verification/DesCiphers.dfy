/** The block ciphers built on RawDES (crypto++/des.cpp): DES, DES-EDE2,
    DES-EDE3 and DES-XEX3. */
module DesCiphers {
  import opened DesPermutation
  import opened DesKeys
  import opened Des

  // ----- blocks of eight bytes

  type Block = b: seq<bv8> | |b| == 8 witness [0, 0, 0, 0, 0, 0, 0, 0]

  /** Big-endian words of a block. */
  function Get(b: Block): Words {
    (Spread(b[0], b[1], b[2], b[3]), Spread(b[4], b[5], b[6], b[7]))
  }

  function ByteOf(w: bv32, i: int): bv8
    requires 0 <= i < 4
  {
    var shifted := match i case 0 => w >> 24 case 1 => w >> 16 case 2 => w >> 8 case _ => w;
    (shifted & 0xff) as bv8
  }

  function Put(w: Words): Block {
    [ByteOf(w.0, 0), ByteOf(w.0, 1), ByteOf(w.0, 2), ByteOf(w.0, 3),
     ByteOf(w.1, 0), ByteOf(w.1, 1), ByteOf(w.1, 2), ByteOf(w.1, 3)]
  }

  lemma WordBytes(w: bv32)
    ensures Spread(ByteOf(w, 0), ByteOf(w, 1), ByteOf(w, 2), ByteOf(w, 3)) == w
  {
  }

  lemma ByteWords(a: bv8, b: bv8, c: bv8, d: bv8)
    ensures var w := Spread(a, b, c, d);
      ByteOf(w, 0) == a && ByteOf(w, 1) == b && ByteOf(w, 2) == c && ByteOf(w, 3) == d
  {
  }

  lemma GetPut(w: Words)
    ensures Get(Put(w)) == w
  {
    hide Spread, ByteOf;
    WordBytes(w.0);
    WordBytes(w.1);
  }

  lemma PutGet(b: Block)
    ensures Put(Get(b)) == b
  {
    hide Spread, ByteOf;
    ByteWords(b[0], b[1], b[2], b[3]);
    ByteWords(b[4], b[5], b[6], b[7]);
  }

  function Xor(a: Block, b: Block): (c: Block) {
    seq(8, i requires 0 <= i < 8 => a[i] ^ b[i])
  }

  lemma XorTwice(a: Block, b: Block)
    ensures Xor(Xor(a, b), b) == a
  {
    forall i | 0 <= i < 8 ensures Xor(Xor(a, b), b)[i] == a[i] {
      ByteXorTwice(a[i], b[i]);
    }
  }

  lemma ByteXorTwice(x: bv8, y: bv8)
    ensures (x ^ y) ^ y == x
  {
  }

  // ----- single DES

  function DesWords(sp: Boxes, keys: seq<Words>, w: Words): Words {
    Swap(FPERM(Rounds(sp, keys, IPERM(w))))
  }

  function DesBlock(sp: Boxes, dir: CipherDir, key: Block, b: Block): Block {
    Put(DesWords(sp, KeysFor(dir, key), Get(b)))
  }

  lemma SwapSwap(w: Words)
    ensures Swap(Swap(w)) == w
  {
  }

  /** Between two passes the permutations cancel and the halves change places. */
  lemma Passes(sp: Boxes, keys: seq<Words>, w: Words)
    ensures IPERM(DesWords(sp, keys, w)) == Swap(Rounds(sp, keys, IPERM(w)))
  {
    hide Rounds, IPERM, FPERM, Swap;
    var v := Rounds(sp, keys, IPERM(w));
    SwapSwap(v);
    PermutationsInverse(Swap(v));
  }

  lemma DesWordsInverse(sp: Boxes, keys: seq<Words>, w: Words)
    ensures DesWords(sp, Reverse(keys), DesWords(sp, keys, w)) == w
  {
    hide Rounds, IPERM, FPERM, Swap, Reverse;
    Passes(sp, keys, w);
    FeistelInverse(sp, keys, IPERM(w));
    PermutationsInverse(w);
  }

  lemma KeysReversed(dir: CipherDir, key: Block)
    ensures KeysFor(ReverseCipherDir(dir), key) == Reverse(KeysFor(dir, key))
  {
    hide Schedule;
    ReverseReverse(Schedule(key));
  }

  /** Decryption undoes encryption, and encryption decryption. */
  lemma DesInverse(sp: Boxes, dir: CipherDir, key: Block, b: Block)
    ensures DesBlock(sp, ReverseCipherDir(dir), key, DesBlock(sp, dir, key, b)) == b
  {
    hide DesWords, KeysFor, Reverse, Get, Put, ReverseCipherDir;
    KeysReversed(dir, key);
    GetPut(DesWords(sp, KeysFor(dir, key), Get(b)));
    DesWordsInverse(sp, KeysFor(dir, key), Get(b));
    PutGet(b);
  }

  lemma ReverseTwice(dir: CipherDir)
    ensures ReverseCipherDir(ReverseCipherDir(dir)) == dir
  {
  }

  // ----- two and three keys

  function Part(key: seq<bv8>, n: nat): Block
    requires 8 * n + 8 <= |key|
  {
    key[8 * n..8 * n + 8]
  }

  /** Encryption: key 3 of the inverse of key 2 of key 1; decryption: the other
      way round. */
  function Ede3Block(sp: Boxes, dir: CipherDir, key: seq<bv8>, b: Block): Block
    requires |key| == 24
  {
    var first, last := if dir == ENCRYPTION then 0 else 2, if dir == ENCRYPTION then 2 else 0;
    DesBlock(sp, dir, Part(key, last),
      DesBlock(sp, ReverseCipherDir(dir), Part(key, 1), DesBlock(sp, dir, Part(key, first), b)))
  }

  function Ede2Block(sp: Boxes, dir: CipherDir, key: seq<bv8>, b: Block): Block
    requires |key| == 16
  {
    DesBlock(sp, dir, Part(key, 0),
      DesBlock(sp, ReverseCipherDir(dir), Part(key, 1), DesBlock(sp, dir, Part(key, 0), b)))
  }

  function Xex3Block(sp: Boxes, dir: CipherDir, key: seq<bv8>, b: Block): Block
    requires |key| == 24
  {
    var first, last := if dir == ENCRYPTION then 0 else 2, if dir == ENCRYPTION then 2 else 0;
    Xor(DesBlock(sp, dir, Part(key, 1), Xor(b, Part(key, first))), Part(key, last))
  }

  lemma ThreeInverse(sp: Boxes, dir: CipherDir, k1: Block, k2: Block, k3: Block, b: Block)
    ensures var back := ReverseCipherDir(dir);
      DesBlock(sp, back, k1, DesBlock(sp, dir, k2, DesBlock(sp, back, k3,
        DesBlock(sp, dir, k3, DesBlock(sp, back, k2, DesBlock(sp, dir, k1, b)))))) == b
  {
    hide DesBlock, ReverseCipherDir;
    var back := ReverseCipherDir(dir);
    ReverseTwice(dir);
    var x := DesBlock(sp, dir, k1, b);
    var y := DesBlock(sp, back, k2, x);
    DesInverse(sp, dir, k1, b);
    DesInverse(sp, back, k2, x);
    DesInverse(sp, dir, k3, y);
  }

  lemma Ede3Inverse(sp: Boxes, dir: CipherDir, key: seq<bv8>, b: Block)
    requires |key| == 24
    ensures Ede3Block(sp, ReverseCipherDir(dir), key, Ede3Block(sp, dir, key, b)) == b
  {
    hide DesBlock, Part;
    if dir == ENCRYPTION {
      ThreeInverse(sp, dir, Part(key, 0), Part(key, 1), Part(key, 2), b);
    } else {
      ThreeInverse(sp, dir, Part(key, 2), Part(key, 1), Part(key, 0), b);
    }
  }

  lemma Ede2Inverse(sp: Boxes, dir: CipherDir, key: seq<bv8>, b: Block)
    requires |key| == 16
    ensures Ede2Block(sp, ReverseCipherDir(dir), key, Ede2Block(sp, dir, key, b)) == b
  {
    hide DesBlock, Part;
    ThreeInverse(sp, dir, Part(key, 0), Part(key, 1), Part(key, 0), b);
  }

  lemma Xex3Inverse(sp: Boxes, dir: CipherDir, key: seq<bv8>, b: Block)
    requires |key| == 24
    ensures Xex3Block(sp, ReverseCipherDir(dir), key, Xex3Block(sp, dir, key, b)) == b
  {
    hide DesBlock, Part, Xor;
    var first, last := if dir == ENCRYPTION then 0 else 2, if dir == ENCRYPTION then 2 else 0;
    var x := DesBlock(sp, dir, Part(key, 1), Xor(b, Part(key, first)));
    XorTwice(x, Part(key, last));
    DesInverse(sp, dir, Part(key, 1), Xor(b, Part(key, first)));
    XorTwice(b, Part(key, first));
  }

  /** Encryption under k1, decryption under k2, encryption under k3, and the way
      back. */
  lemma Ede3IsTriple(sp: Boxes, k1: Block, k2: Block, k3: Block, b: Block)
    ensures Ede3Block(sp, ENCRYPTION, k1 + k2 + k3, b) ==
      DesBlock(sp, ENCRYPTION, k3, DesBlock(sp, DECRYPTION, k2, DesBlock(sp, ENCRYPTION, k1, b)))
    ensures Ede3Block(sp, DECRYPTION, k1 + k2 + k3, b) ==
      DesBlock(sp, DECRYPTION, k1, DesBlock(sp, ENCRYPTION, k2, DesBlock(sp, DECRYPTION, k3, b)))
  {
    hide DesBlock;
    var key := k1 + k2 + k3;
    assert Part(key, 0) == k1 && Part(key, 1) == k2 && Part(key, 2) == k3;
  }

  lemma Ede2IsTriple(sp: Boxes, k1: Block, k2: Block, b: Block)
    ensures Ede2Block(sp, ENCRYPTION, k1 + k2, b) ==
      DesBlock(sp, ENCRYPTION, k1, DesBlock(sp, DECRYPTION, k2, DesBlock(sp, ENCRYPTION, k1, b)))
    ensures Ede2Block(sp, DECRYPTION, k1 + k2, b) ==
      DesBlock(sp, DECRYPTION, k1, DesBlock(sp, ENCRYPTION, k2, DesBlock(sp, DECRYPTION, k1, b)))
  {
    hide DesBlock;
    assert Part(k1 + k2, 0) == k1 && Part(k1 + k2, 1) == k2;
  }

  /** The outer keys are xored in before and after the DES of the middle one. */
  lemma Xex3IsWhitened(sp: Boxes, k1: Block, k2: Block, k3: Block, b: Block)
    ensures Xex3Block(sp, ENCRYPTION, k1 + k2 + k3, b) == Xor(DesBlock(sp, ENCRYPTION, k2, Xor(b, k1)), k3)
    ensures Xex3Block(sp, DECRYPTION, k1 + k2 + k3, b) == Xor(DesBlock(sp, DECRYPTION, k2, Xor(b, k3)), k1)
  {
    hide DesBlock, Xor;
    var key := k1 + k2 + k3;
    assert Part(key, 0) == k1 && Part(key, 1) == k2 && Part(key, 2) == k3;
  }

  /** Xor acts on every byte alone. */
  lemma XorLaws(a: Block, b: Block)
    ensures forall i :: 0 <= i < 8 ==> Xor(a, b)[i] == a[i] ^ b[i]
    ensures Xor(a, b) == Xor(b, a) && Xor(a, a) == Zeros8 && Xor(a, Zeros8) == a
  {
    forall i | 0 <= i < 8 ensures Xor(a, b)[i] == Xor(b, a)[i] && Xor(a, a)[i] == 0 && Xor(a, Zeros8)[i] == a[i] {
      ByteXorLaws(a[i], b[i]);
      assert Zeros8[i] == 0;
    }
  }

  lemma ByteXorLaws(x: bv8, y: bv8)
    ensures x ^ y == y ^ x && x ^ x == 0 && x ^ 0 == x
  {
  }

  /** With all keys equal, triple DES is single DES. */
  lemma OneKey(sp: Boxes, dir: CipherDir, k: Block, b: Block)
    ensures Ede3Block(sp, dir, k + k + k, b) == DesBlock(sp, dir, k, b) == Ede2Block(sp, dir, k + k, b)
  {
    hide DesBlock;
    DesInverse(sp, dir, k, b);
    assert Part(k + k + k, 0) == Part(k + k + k, 1) == Part(k + k + k, 2) == k;
    assert Part(k + k, 0) == Part(k + k, 1) == k;
  }

  /** The three passes of the code, between one IPERM and one FPERM. */
  lemma ThreePasses(sp: Boxes, k1: seq<Words>, k2: seq<Words>, k3: seq<Words>, w: Words)
    ensures DesWords(sp, k3, DesWords(sp, k2, DesWords(sp, k1, w))) ==
      Swap(FPERM(Rounds(sp, k3, Swap(Rounds(sp, k2, Swap(Rounds(sp, k1, IPERM(w))))))))
  {
    hide Rounds, IPERM, FPERM, Swap;
    Passes(sp, k1, w);
    Passes(sp, k2, DesWords(sp, k1, w));
  }

  lemma ThreeBlocks(sp: Boxes, d1: CipherDir, k1: Block, d2: CipherDir, k2: Block, d3: CipherDir, k3: Block, b: Block)
    ensures DesBlock(sp, d3, k3, DesBlock(sp, d2, k2, DesBlock(sp, d1, k1, b))) ==
      Put(Swap(FPERM(Rounds(sp, KeysFor(d3, k3), Swap(Rounds(sp, KeysFor(d2, k2),
        Swap(Rounds(sp, KeysFor(d1, k1), IPERM(Get(b))))))))))
  {
    hide Rounds, IPERM, FPERM, Swap, Get, Put, KeysFor, DesWords;
    var x := DesWords(sp, KeysFor(d1, k1), Get(b));
    GetPut(x);
    GetPut(DesWords(sp, KeysFor(d2, k2), x));
    ThreePasses(sp, KeysFor(d1, k1), KeysFor(d2, k2), KeysFor(d3, k3), Get(b));
  }

  // ----- the classes

  /** What ProcessAndXorBlock leaves in outBlock: the result, xored with
      xorBlock unless that is null. */
  function Masked(b: Block, mask: seq<bv8>): Block
    requires |mask| == 0 || |mask| == 8
  {
    if |mask| == 0 then b else Xor(b, mask)
  }

  function Contents(a: array?<bv8>): seq<bv8>
    reads a
  {
    if a == null then [] else a[..]
  }

  method PutBlock(xorBlock: array?<bv8>, outBlock: array<bv8>, l: bv32, r: bv32)
    requires outBlock.Length == 8 && (xorBlock != null ==> xorBlock.Length == 8)
    modifies outBlock
    ensures outBlock[..] == Masked(Put((l, r)), old(Contents(xorBlock)))
  {
    hide Put;
    var bytes := Put((l, r));
    for i := 0 to 8
      invariant forall j :: 0 <= j < i ==> outBlock[j] == Masked(bytes, old(Contents(xorBlock)))[j]
      invariant forall j :: i <= j < 8 ==> outBlock[j] == old(outBlock[j])
    {
      outBlock[i] := if xorBlock == null then bytes[i] else bytes[i] ^ xorBlock[i];
    }
  }

  /** outBlock may be inBlock or xorBlock, or both. */
  class DES {
    const dir: CipherDir
    const raw: RawDES
    ghost var key: Block

    ghost predicate Valid()
      reads this, raw, raw.k
    {
      raw.Valid() && raw.keys == KeysFor(dir, key)
    }

    constructor (dir: CipherDir, sp: Boxes)
      ensures this.dir == dir && raw.Spbox == sp && raw.k.Length == 32 && fresh(raw) && fresh(raw.k)
    {
      this.dir := dir;
      raw := new RawDES(sp);
    }

    method SetKey(userKey: seq<bv8>) returns (ok: bool)
      requires raw.k.Length == 32
      modifies this, raw, raw.k
      ensures ok <==> |userKey| == 8
      ensures ok ==> Valid() && key == userKey
    {
      if |userKey| != 8 {
        return false;
      }
      raw.SetKey(dir, userKey);
      key := userKey;
      return true;
    }

    method ProcessAndXorBlock(inBlock: array<bv8>, xorBlock: array?<bv8>, outBlock: array<bv8>)
      requires Valid() && inBlock.Length == 8 == outBlock.Length && (xorBlock != null ==> xorBlock.Length == 8)
      modifies outBlock
      ensures outBlock[..] ==
        Masked(DesBlock(raw.Spbox, dir, key, old(inBlock[..])), old(Contents(xorBlock)))
    {
      hide Rounds, IPERM, FPERM, Get, Put, KeysFor;
      var (l, r) := IPERM(Get(inBlock[..]));
      l, r := raw.RawProcessBlock(l, r);
      var (l2, r2) := FPERM((l, r));
      PutBlock(xorBlock, outBlock, r2, l2);
    }
  }

  class DES_EDE2 {
    const dir: CipherDir
    const des1: RawDES
    const des2: RawDES
    ghost var key: seq<bv8>

    ghost predicate Valid()
      reads this, des1, des1.k, des2, des2.k
    {
      && |key| == 16 && des1.Valid() && des2.Valid() && des1.Spbox == des2.Spbox
      && des1.keys == KeysFor(dir, Part(key, 0)) && des2.keys == KeysFor(ReverseCipherDir(dir), Part(key, 1))
    }

    ghost predicate Parts() {
      des1 != des2 && des1.k != des2.k && des1.k.Length == 32 == des2.k.Length && des1.Spbox == des2.Spbox
    }

    constructor (dir: CipherDir, sp: Boxes)
      ensures this.dir == dir && des1.Spbox == sp && Parts()
      ensures fresh({des1, des2}) && fresh({des1.k, des2.k})
    {
      this.dir := dir;
      des1 := new RawDES(sp);
      des2 := new RawDES(sp);
    }

    method SetKey(userKey: seq<bv8>) returns (ok: bool)
      requires Parts()
      modifies this, des1, des1.k, des2, des2.k
      ensures ok <==> |userKey| == 16
      ensures ok ==> Valid() && key == userKey
    {
      hide KeysFor, Holds, Part;
      if |userKey| != 16 {
        return false;
      }
      des1.SetKey(dir, Part(userKey, 0));
      des2.SetKey(ReverseCipherDir(dir), Part(userKey, 1));
      key := userKey;
      return true;
    }

    method ProcessAndXorBlock(inBlock: array<bv8>, xorBlock: array?<bv8>, outBlock: array<bv8>)
      requires Valid() && inBlock.Length == 8 == outBlock.Length && (xorBlock != null ==> xorBlock.Length == 8)
      modifies outBlock
      ensures outBlock[..] ==
        Masked(Ede2Block(des1.Spbox, dir, key, old(inBlock[..])), old(Contents(xorBlock)))
    {
      hide Rounds, IPERM, FPERM, Get, Put, KeysFor, Part, Holds, DesBlock;
      ThreeBlocks(des1.Spbox, dir, Part(key, 0), ReverseCipherDir(dir), Part(key, 1), dir, Part(key, 0), inBlock[..]);
      var (l, r) := IPERM(Get(inBlock[..]));
      l, r := des1.RawProcessBlock(l, r);
      r, l := des2.RawProcessBlock(r, l);
      l, r := des1.RawProcessBlock(l, r);
      var (l2, r2) := FPERM((l, r));
      PutBlock(xorBlock, outBlock, r2, l2);
    }
  }

  class DES_EDE3 {
    const dir: CipherDir
    const des1: RawDES
    const des2: RawDES
    const des3: RawDES
    ghost var key: seq<bv8>

    ghost predicate Valid()
      reads this, des1, des1.k, des2, des2.k, des3, des3.k
    {
      && |key| == 24 && des1.Valid() && des2.Valid() && des3.Valid()
      && des1.Spbox == des2.Spbox && des2.Spbox == des3.Spbox
      && des1.keys == KeysFor(dir, Part(key, if dir == ENCRYPTION then 0 else 2))
      && des2.keys == KeysFor(ReverseCipherDir(dir), Part(key, 1))
      && des3.keys == KeysFor(dir, Part(key, if dir == ENCRYPTION then 2 else 0))
    }

    ghost predicate Parts() {
      && des1 != des2 && des2 != des3 && des1 != des3 && des1.k != des2.k && des2.k != des3.k && des1.k != des3.k
      && des1.k.Length == 32 && des2.k.Length == 32 && des3.k.Length == 32
      && des1.Spbox == des2.Spbox && des2.Spbox == des3.Spbox
    }

    constructor (dir: CipherDir, sp: Boxes)
      ensures this.dir == dir && des1.Spbox == sp && Parts()
      ensures fresh({des1, des2, des3}) && fresh({des1.k, des2.k, des3.k})
    {
      this.dir := dir;
      des1 := new RawDES(sp);
      des2 := new RawDES(sp);
      des3 := new RawDES(sp);
    }

    method SetKey(userKey: seq<bv8>) returns (ok: bool)
      requires Parts()
      modifies this, des1, des1.k, des2, des2.k, des3, des3.k
      ensures ok <==> |userKey| == 24
      ensures ok ==> Valid() && key == userKey
    {
      hide KeysFor, Holds, Part;
      if |userKey| != 24 {
        return false;
      }
      des1.SetKey(dir, Part(userKey, if dir == ENCRYPTION then 0 else 2));
      des2.SetKey(ReverseCipherDir(dir), Part(userKey, 1));
      des3.SetKey(dir, Part(userKey, if dir == ENCRYPTION then 2 else 0));
      key := userKey;
      return true;
    }

    method ProcessAndXorBlock(inBlock: array<bv8>, xorBlock: array?<bv8>, outBlock: array<bv8>)
      requires Valid() && inBlock.Length == 8 == outBlock.Length && (xorBlock != null ==> xorBlock.Length == 8)
      modifies outBlock
      ensures outBlock[..] ==
        Masked(Ede3Block(des1.Spbox, dir, key, old(inBlock[..])), old(Contents(xorBlock)))
    {
      hide Rounds, IPERM, FPERM, Get, Put, KeysFor, Part, Holds, DesBlock;
      ghost var first, last := if dir == ENCRYPTION then 0 else 2, if dir == ENCRYPTION then 2 else 0;
      ThreeBlocks(des1.Spbox, dir, Part(key, first), ReverseCipherDir(dir), Part(key, 1), dir, Part(key, last),
        inBlock[..]);
      var (l, r) := IPERM(Get(inBlock[..]));
      l, r := des1.RawProcessBlock(l, r);
      r, l := des2.RawProcessBlock(r, l);
      l, r := des3.RawProcessBlock(l, r);
      var (l2, r2) := FPERM((l, r));
      PutBlock(xorBlock, outBlock, r2, l2);
    }
  }

  class DES_XEX3 {
    const dir: CipherDir
    const des: DES
    var x1: Block
    var x3: Block
    ghost var key: seq<bv8>

    ghost predicate Valid()
      reads this, des, des.raw, des.raw.k
    {
      && |key| == 24 && des.Valid() && des.dir == dir && des.key == Part(key, 1)
      && x1 == Part(key, if dir == ENCRYPTION then 0 else 2) && x3 == Part(key, if dir == ENCRYPTION then 2 else 0)
    }

    constructor (dir: CipherDir, sp: Boxes)
      ensures this.dir == dir == des.dir && des.raw.Spbox == sp && des.raw.k.Length == 32
      ensures fresh(des) && fresh(des.raw) && fresh(des.raw.k)
    {
      this.dir := dir;
      des := new DES(dir, sp);
    }

    method SetKey(userKey: seq<bv8>) returns (ok: bool)
      requires des.raw.k.Length == 32 && des.dir == dir
      modifies this, des, des.raw, des.raw.k
      ensures ok <==> |userKey| == 24
      ensures ok ==> Valid() && key == userKey
    {
      hide KeysFor, Holds;
      if |userKey| != 24 {
        return false;
      }
      x1 := Part(userKey, if dir == ENCRYPTION then 0 else 2);
      var done := des.SetKey(Part(userKey, 1));
      x3 := Part(userKey, if dir == ENCRYPTION then 2 else 0);
      key := userKey;
      return true;
    }

    /** The first xor overwrites outBlock before xorBlock is read: when they are
        the same array, what is xored in is not what was there. */
    method ProcessAndXorBlock(inBlock: array<bv8>, xorBlock: array?<bv8>, outBlock: array<bv8>)
      requires Valid() && inBlock.Length == 8 == outBlock.Length && (xorBlock != null ==> xorBlock.Length == 8)
      modifies outBlock
      ensures var mask := if xorBlock == outBlock then Xor(old(inBlock[..]), x1) else old(Contents(xorBlock));
        outBlock[..] == Masked(Xex3Block(des.raw.Spbox, dir, key, old(inBlock[..])), mask)
      ensures
        outBlock[..] == Masked(Xex3Block(des.raw.Spbox, dir, key, old(inBlock[..])), old(Contents(xorBlock)))
        <==> xorBlock != outBlock || old(outBlock[..]) == Xor(old(inBlock[..]), x1)
    {
      hide DesBlock, KeysFor, Holds, Part, Xor;
      ghost var promised := Xex3Block(des.raw.Spbox, dir, key, inBlock[..]);
      if xorBlock == outBlock {
        XorInjective(promised, xorBlock[..], Xor(inBlock[..], x1));
      }
      XorInto(outBlock, inBlock, x1);
      des.ProcessAndXorBlock(outBlock, xorBlock, outBlock);
      ghost var mask := if xorBlock == outBlock then Xor(old(inBlock[..]), x1) else old(Contents(xorBlock));
      MaskLast(DesBlock(des.raw.Spbox, dir, Part(key, 1), Xor(old(inBlock[..]), x1)), mask, x3);
      XorInto(outBlock, outBlock, x3);
    }
  }

  lemma XorInjective(a: Block, b: Block, c: Block)
    ensures Xor(a, b) == Xor(a, c) <==> b == c
  {
    hide Xor;
    XorAgain(a, b);
    XorAgain(a, c);
  }

  lemma XorAgain(a: Block, b: Block)
    ensures Xor(a, Xor(a, b)) == b
  {
    forall i | 0 <= i < 8 ensures Xor(a, Xor(a, b))[i] == b[i] {
      ByteXorAgain(a[i], b[i]);
    }
  }

  lemma ByteXorAgain(x: bv8, y: bv8)
    ensures x ^ (x ^ y) == y
  {
  }

  const Zeros8: Block := [0, 0, 0, 0, 0, 0, 0, 0]

  /** One array of zeros as input, xor and output block, under a key that begins
      with a one: whatever the boxes, the result is not the promised one. */
  method Xex3Wrong(sp: Boxes) returns (key: seq<bv8>, result: Block)
    ensures |key| == 24
    ensures result != Masked(Xex3Block(sp, ENCRYPTION, key, Zeros8), Zeros8)
  {
    hide Xex3Block, KeysFor, Holds;
    var cipher := new DES_XEX3(ENCRYPTION, sp);
    key := [1, 0, 0, 0, 0, 0, 0, 0] + Zeros8 + Zeros8;
    var ok := cipher.SetKey(key);
    var block := new bv8[8](_ => 0);
    assert block[..] == Zeros8;
    assert cipher.x1 == [1, 0, 0, 0, 0, 0, 0, 0];
    assert Xor(Zeros8, cipher.x1)[0] == 1;
    cipher.ProcessAndXorBlock(block, block, block);
    result := block[..];
  }

  lemma MaskLast(b: Block, mask: seq<bv8>, x: Block)
    requires |mask| == 0 || |mask| == 8
    ensures Xor(Masked(b, mask), x) == Masked(Xor(b, x), mask)
  {
    if |mask| == 8 {
      forall i | 0 <= i < 8 ensures Xor(Xor(b, mask), x)[i] == Xor(Xor(b, x), mask)[i] {
        XorOrder(b[i], mask[i], x[i]);
      }
    }
  }

  lemma XorOrder(a: bv8, b: bv8, c: bv8)
    ensures (a ^ b) ^ c == (a ^ c) ^ b
  {
  }

  /** xorbuf */
  method XorInto(outBlock: array<bv8>, inBlock: array<bv8>, mask: Block)
    requires outBlock.Length == 8 == inBlock.Length
    modifies outBlock
    ensures outBlock[..] == Xor(old(inBlock[..]), mask)
  {
    for i := 0 to 8
      invariant forall j :: 0 <= j < i ==> outBlock[j] == old(inBlock[j]) ^ mask[j]
      invariant forall j :: i <= j < 8 ==> inBlock[j] == old(inBlock[j])
    {
      outBlock[i] := inBlock[i] ^ mask[i];
    }
  }
}

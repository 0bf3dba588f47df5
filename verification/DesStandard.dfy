/** DES as FIPS 46-3 writes it down, bit by bit and with halves that are not
    rotated, and the proof that the code computes it.  Only what is inside the
    combined S and P boxes stays arbitrary. */
module DesStandard {
  import opened DesPermutation
  import opened DesKeys
  import opened Des
  import opened DesCiphers

  // ----- bits of a block, numbered from 1 at the left of the first byte

  predicate BlockBit(b: Block, n: int) {
    1 <= n <= 64 && FromLeft(b[(n - 1) / 8], (n - 1) % 8)
  }

  /** Bit j of a byte, counted from 0 at the left. */
  predicate FromLeft(x: bv8, j: int)
    requires 0 <= j < 8
  {
    (x << j) & 0x80 != 0
  }

  // ----- the key schedule

  /** C and D after permuted choice 1 and the rotations of the first i rounds:
      one place in rounds 1, 2, 9 and 16, two in the others. */
  function Halves(key: Block, i: nat): (c: seq<bool>)
    requires i <= 16
    ensures |c| == 56
  {
    if i == 0 then seq(56, j requires 0 <= j < 56 => BlockBit(key, Pc1Column(j)))
    else if i == 1 || i == 2 || i == 9 || i == 16 then RotateOnce(Halves(key, i - 1))
    else RotateOnce(RotateOnce(Halves(key, i - 1)))
  }

  /** The key of round i, by permuted choice 2. */
  function Subkey(key: Block, i: nat): (k: seq<bool>)
    requires 1 <= i <= 16
    ensures |k| == 48
  {
    Tables();
    seq(48, j requires 0 <= j < 48 => assert Pc2[j] in Pc2; Halves(key, i)[Pc2[j] - 1])
  }

  function Subkeys(key: Block): (ks: seq<seq<bool>>)
    ensures |ks| == 16
  {
    seq(16, i requires 0 <= i < 16 => Subkey(key, i + 1))
  }

  // ----- the round function

  /** Table E: 32 1 2 3 4 5, 4 5 ... 9, ..., 28 29 30 31 32 1. */
  function Expansion(i: int): int {
    var x := 4 * ((i - 1) / 6) + (i - 1) % 6;
    if x == 0 then 32 else if x == 33 then 1 else x
  }

  /** Six bits, the first the most significant. */
  function Six(a: bool, b: bool, c: bool, d: bool, e: bool, f: bool): bv6 {
    (if a then 0x20 else 0) | (if b then 0x10 else 0) | (if c then 0x08 else 0) |
    (if d then 0x04 else 0) | (if e then 0x02 else 0) | if f then 0x01 else 0
  }

  /** Bit j of what box n sees: a bit of the expanded half and one of the key. */
  predicate InputBit(r: bv32, k: seq<bool>, n: int, j: int)
    requires |k| == 48 && 0 <= n < 8 && 0 <= j < 6
  {
    HalfBit(r, Expansion(6 * n + j + 1)) != k[6 * n + j]
  }

  function BoxInput(r: bv32, k: seq<bool>, n: int): bv6
    requires |k| == 48 && 0 <= n < 8
  {
    Six(InputBit(r, k, n, 0), InputBit(r, k, n, 1), InputBit(r, k, n, 2),
        InputBit(r, k, n, 3), InputBit(r, k, n, 4), InputBit(r, k, n, 5))
  }

  function Xor2(a: bv32, b: bv32): bv32 {
    a ^ b
  }

  function Xor4(a: bv32, b: bv32, c: bv32, d: bv32): bv32 {
    a ^ b ^ c ^ d
  }

  /** What the eight boxes give, rotated like the halves of the code. */
  function BoxOutputs(sp: Boxes, r: bv32, k: seq<bool>): bv32
    requires |k| == 48
  {
    Xor2(
      Xor4(sp(6, BoxInput(r, k, 6)), sp(4, BoxInput(r, k, 4)), sp(2, BoxInput(r, k, 2)), sp(0, BoxInput(r, k, 0))),
      Xor4(sp(7, BoxInput(r, k, 7)), sp(5, BoxInput(r, k, 5)), sp(3, BoxInput(r, k, 3)), sp(1, BoxInput(r, k, 1))))
  }

  // ----- the words of a round key, and what reaches each box

  /** Six bits in a byte. */
  function SixByte(a: bool, b: bool, c: bool, d: bool, e: bool, f: bool): bv8 {
    (if a then 0x20 else 0) | (if b then 0x10 else 0) | (if c then 0x08 else 0) |
    (if d then 0x04 else 0) | (if e then 0x02 else 0) | if f then 0x01 else 0
  }

  function Group(k: seq<bool>, n: int): bv8
    requires |k| == 48 && 0 <= n < 8
  {
    SixByte(k[6 * n], k[6 * n + 1], k[6 * n + 2], k[6 * n + 3], k[6 * n + 4], k[6 * n + 5])
  }

  lemma GroupIsSixBits(k: seq<bool>, n: int)
    requires |k| == 48 && 0 <= n < 8
    ensures SixBits(k, n, 6) == Group(k, n)
  {
    assert SixBits(k, n, 0) == 0;
    assert SixBits(k, n, 2) == (if k[6 * n] then 0x20 else 0) | if k[6 * n + 1] then 0x10 else 0;
    assert SixBits(k, n, 4) == SixBits(k, n, 2) | (if k[6 * n + 2] then 0x08 else 0) | if k[6 * n + 3] then 0x04 else 0;
  }

  function KeyWords(k: seq<bool>): Words
    requires |k| == 48
  {
    (Spread(Group(k, 0), Group(k, 2), Group(k, 4), Group(k, 6)),
     Spread(Group(k, 1), Group(k, 3), Group(k, 5), Group(k, 7)))
  }

  /** A half as the code holds it. */
  function Up(r: bv32): bv32 {
    r.RotateLeft(1)
  }

  /** The six bits of a work word that box n is given. */
  function Taken(work: bv32, n: int): bv32 {
    var lane := if n <= 1 then work >> 24 else if n <= 3 then work >> 16 else if n <= 5 then work >> 8 else work;
    lane & 0x3f
  }

  function Wide(x: bv6): bv32 {
    x as bv32
  }

  lemma Box0Input(r: bv32, a: bool, b: bool, c: bool, d: bool, e: bool, f: bool, x: bv8, y: bv8, z: bv8)
    ensures Taken(EvenInput(Up(r), Spread(SixByte(a, b, c, d, e, f), x, y, z)), 0) ==
      Wide(Six(HalfBit(r, 32) != a, HalfBit(r, 1) != b, HalfBit(r, 2) != c,
               HalfBit(r, 3) != d, HalfBit(r, 4) != e, HalfBit(r, 5) != f))
  {
  }

  lemma Box0Sees(r: bv32, k: seq<bool>)
    requires |k| == 48
    ensures Taken(EvenInput(Up(r), Spread(Group(k, 0), Group(k, 2), Group(k, 4), Group(k, 6))), 0) ==
      Wide(BoxInput(r, k, 0))
  {
    hide Taken, EvenInput, Up, Spread, SixByte, Six, Wide, HalfBit;
    Box0Input(r, k[0], k[1], k[2], k[3], k[4], k[5], Group(k, 2), Group(k, 4), Group(k, 6));
  }

  lemma Box1Input(r: bv32, a: bool, b: bool, c: bool, d: bool, e: bool, f: bool, x: bv8, y: bv8, z: bv8)
    ensures Taken(OddInput(Up(r), Spread(SixByte(a, b, c, d, e, f), x, y, z)), 1) ==
      Wide(Six(HalfBit(r, 4) != a, HalfBit(r, 5) != b, HalfBit(r, 6) != c,
               HalfBit(r, 7) != d, HalfBit(r, 8) != e, HalfBit(r, 9) != f))
  {
  }

  lemma Box1Sees(r: bv32, k: seq<bool>)
    requires |k| == 48
    ensures Taken(OddInput(Up(r), Spread(Group(k, 1), Group(k, 3), Group(k, 5), Group(k, 7))), 1) ==
      Wide(BoxInput(r, k, 1))
  {
    hide Taken, OddInput, Up, Spread, SixByte, Six, Wide, HalfBit;
    Box1Input(r, k[6], k[7], k[8], k[9], k[10], k[11], Group(k, 3), Group(k, 5), Group(k, 7));
  }

  lemma Box2Input(r: bv32, a: bool, b: bool, c: bool, d: bool, e: bool, f: bool, x: bv8, y: bv8, z: bv8)
    ensures Taken(EvenInput(Up(r), Spread(x, SixByte(a, b, c, d, e, f), y, z)), 2) ==
      Wide(Six(HalfBit(r, 8) != a, HalfBit(r, 9) != b, HalfBit(r, 10) != c,
               HalfBit(r, 11) != d, HalfBit(r, 12) != e, HalfBit(r, 13) != f))
  {
  }

  lemma Box2Sees(r: bv32, k: seq<bool>)
    requires |k| == 48
    ensures Taken(EvenInput(Up(r), Spread(Group(k, 0), Group(k, 2), Group(k, 4), Group(k, 6))), 2) ==
      Wide(BoxInput(r, k, 2))
  {
    hide Taken, EvenInput, Up, Spread, SixByte, Six, Wide, HalfBit;
    Box2Input(r, k[12], k[13], k[14], k[15], k[16], k[17], Group(k, 0), Group(k, 4), Group(k, 6));
  }

  lemma Box3Input(r: bv32, a: bool, b: bool, c: bool, d: bool, e: bool, f: bool, x: bv8, y: bv8, z: bv8)
    ensures Taken(OddInput(Up(r), Spread(x, SixByte(a, b, c, d, e, f), y, z)), 3) ==
      Wide(Six(HalfBit(r, 12) != a, HalfBit(r, 13) != b, HalfBit(r, 14) != c,
               HalfBit(r, 15) != d, HalfBit(r, 16) != e, HalfBit(r, 17) != f))
  {
  }

  lemma Box3Sees(r: bv32, k: seq<bool>)
    requires |k| == 48
    ensures Taken(OddInput(Up(r), Spread(Group(k, 1), Group(k, 3), Group(k, 5), Group(k, 7))), 3) ==
      Wide(BoxInput(r, k, 3))
  {
    hide Taken, OddInput, Up, Spread, SixByte, Six, Wide, HalfBit;
    Box3Input(r, k[18], k[19], k[20], k[21], k[22], k[23], Group(k, 1), Group(k, 5), Group(k, 7));
  }

  lemma Box4Input(r: bv32, a: bool, b: bool, c: bool, d: bool, e: bool, f: bool, x: bv8, y: bv8, z: bv8)
    ensures Taken(EvenInput(Up(r), Spread(x, y, SixByte(a, b, c, d, e, f), z)), 4) ==
      Wide(Six(HalfBit(r, 16) != a, HalfBit(r, 17) != b, HalfBit(r, 18) != c,
               HalfBit(r, 19) != d, HalfBit(r, 20) != e, HalfBit(r, 21) != f))
  {
  }

  lemma Box4Sees(r: bv32, k: seq<bool>)
    requires |k| == 48
    ensures Taken(EvenInput(Up(r), Spread(Group(k, 0), Group(k, 2), Group(k, 4), Group(k, 6))), 4) ==
      Wide(BoxInput(r, k, 4))
  {
    hide Taken, EvenInput, Up, Spread, SixByte, Six, Wide, HalfBit;
    Box4Input(r, k[24], k[25], k[26], k[27], k[28], k[29], Group(k, 0), Group(k, 2), Group(k, 6));
  }

  lemma Box5Input(r: bv32, a: bool, b: bool, c: bool, d: bool, e: bool, f: bool, x: bv8, y: bv8, z: bv8)
    ensures Taken(OddInput(Up(r), Spread(x, y, SixByte(a, b, c, d, e, f), z)), 5) ==
      Wide(Six(HalfBit(r, 20) != a, HalfBit(r, 21) != b, HalfBit(r, 22) != c,
               HalfBit(r, 23) != d, HalfBit(r, 24) != e, HalfBit(r, 25) != f))
  {
  }

  lemma Box5Sees(r: bv32, k: seq<bool>)
    requires |k| == 48
    ensures Taken(OddInput(Up(r), Spread(Group(k, 1), Group(k, 3), Group(k, 5), Group(k, 7))), 5) ==
      Wide(BoxInput(r, k, 5))
  {
    hide Taken, OddInput, Up, Spread, SixByte, Six, Wide, HalfBit;
    Box5Input(r, k[30], k[31], k[32], k[33], k[34], k[35], Group(k, 1), Group(k, 3), Group(k, 7));
  }

  lemma Box6Input(r: bv32, a: bool, b: bool, c: bool, d: bool, e: bool, f: bool, x: bv8, y: bv8, z: bv8)
    ensures Taken(EvenInput(Up(r), Spread(x, y, z, SixByte(a, b, c, d, e, f))), 6) ==
      Wide(Six(HalfBit(r, 24) != a, HalfBit(r, 25) != b, HalfBit(r, 26) != c,
               HalfBit(r, 27) != d, HalfBit(r, 28) != e, HalfBit(r, 29) != f))
  {
  }

  lemma Box6Sees(r: bv32, k: seq<bool>)
    requires |k| == 48
    ensures Taken(EvenInput(Up(r), Spread(Group(k, 0), Group(k, 2), Group(k, 4), Group(k, 6))), 6) ==
      Wide(BoxInput(r, k, 6))
  {
    hide Taken, EvenInput, Up, Spread, SixByte, Six, Wide, HalfBit;
    Box6Input(r, k[36], k[37], k[38], k[39], k[40], k[41], Group(k, 0), Group(k, 2), Group(k, 4));
  }

  lemma Box7Input(r: bv32, a: bool, b: bool, c: bool, d: bool, e: bool, f: bool, x: bv8, y: bv8, z: bv8)
    ensures Taken(OddInput(Up(r), Spread(x, y, z, SixByte(a, b, c, d, e, f))), 7) ==
      Wide(Six(HalfBit(r, 28) != a, HalfBit(r, 29) != b, HalfBit(r, 30) != c,
               HalfBit(r, 31) != d, HalfBit(r, 32) != e, HalfBit(r, 1) != f))
  {
  }

  lemma Box7Sees(r: bv32, k: seq<bool>)
    requires |k| == 48
    ensures Taken(OddInput(Up(r), Spread(Group(k, 1), Group(k, 3), Group(k, 5), Group(k, 7))), 7) ==
      Wide(BoxInput(r, k, 7))
  {
    hide Taken, OddInput, Up, Spread, SixByte, Six, Wide, HalfBit;
    Box7Input(r, k[42], k[43], k[44], k[45], k[46], k[47], Group(k, 1), Group(k, 3), Group(k, 5));
  }

  lemma Narrow(w: bv32, x: bv6)
    requires w & 0x3f == Wide(x)
    ensures (w & 0x3f) as bv6 == x
  {
  }

  lemma BoxIs(sp: Boxes, n: int, w: bv32, x: bv6)
    requires w & 0x3f == Wide(x)
    ensures Box(sp, n, w) == sp(n, x)
  {
    Narrow(w, x);
    hide Wide;
  }

  lemma FirstLane(sp: Boxes, n: int, work: bv32, x: bv6)
    requires 0 <= n <= 1 && Taken(work, n) == Wide(x)
    ensures Box(sp, n, work >> 24) == sp(n, x)
  {
    hide Box, Wide;
    BoxIs(sp, n, work >> 24, x);
  }

  lemma SecondLane(sp: Boxes, n: int, work: bv32, x: bv6)
    requires 2 <= n <= 3 && Taken(work, n) == Wide(x)
    ensures Box(sp, n, work >> 16) == sp(n, x)
  {
    hide Box, Wide;
    BoxIs(sp, n, work >> 16, x);
  }

  lemma ThirdLane(sp: Boxes, n: int, work: bv32, x: bv6)
    requires 4 <= n <= 5 && Taken(work, n) == Wide(x)
    ensures Box(sp, n, work >> 8) == sp(n, x)
  {
    hide Box, Wide;
    BoxIs(sp, n, work >> 8, x);
  }

  lemma FourthLane(sp: Boxes, n: int, work: bv32, x: bv6)
    requires 6 <= n <= 7 && Taken(work, n) == Wide(x)
    ensures Box(sp, n, work) == sp(n, x)
  {
    hide Box, Wide;
    BoxIs(sp, n, work, x);
  }

  lemma EvenBoxesFrom(sp: Boxes, work: bv32, b0: bv32, b2: bv32, b4: bv32, b6: bv32)
    requires Box(sp, 0, work >> 24) == b0 && Box(sp, 2, work >> 16) == b2
    requires Box(sp, 4, work >> 8) == b4 && Box(sp, 6, work) == b6
    ensures EvenBoxes(sp, work) == Xor4(b6, b4, b2, b0)
  {
    hide Box;
  }

  lemma EvenBoxesAre(sp: Boxes, work: bv32, i0: bv6, i2: bv6, i4: bv6, i6: bv6)
    requires Taken(work, 0) == Wide(i0) && Taken(work, 2) == Wide(i2)
    requires Taken(work, 4) == Wide(i4) && Taken(work, 6) == Wide(i6)
    ensures EvenBoxes(sp, work) == Xor4(sp(6, i6), sp(4, i4), sp(2, i2), sp(0, i0))
  {
    hide Taken, Wide, Box, EvenBoxes, Xor4;
    FirstLane(sp, 0, work, i0);
    SecondLane(sp, 2, work, i2);
    ThirdLane(sp, 4, work, i4);
    FourthLane(sp, 6, work, i6);
    EvenBoxesFrom(sp, work, sp(0, i0), sp(2, i2), sp(4, i4), sp(6, i6));
  }

  lemma OddBoxesFrom(sp: Boxes, work: bv32, b1: bv32, b3: bv32, b5: bv32, b7: bv32)
    requires Box(sp, 1, work >> 24) == b1 && Box(sp, 3, work >> 16) == b3
    requires Box(sp, 5, work >> 8) == b5 && Box(sp, 7, work) == b7
    ensures OddBoxes(sp, work) == Xor4(b7, b5, b3, b1)
  {
    hide Box;
  }

  lemma OddBoxesAre(sp: Boxes, work: bv32, i1: bv6, i3: bv6, i5: bv6, i7: bv6)
    requires Taken(work, 1) == Wide(i1) && Taken(work, 3) == Wide(i3)
    requires Taken(work, 5) == Wide(i5) && Taken(work, 7) == Wide(i7)
    ensures OddBoxes(sp, work) == Xor4(sp(7, i7), sp(5, i5), sp(3, i3), sp(1, i1))
  {
    hide Taken, Wide, Box, OddBoxes, Xor4;
    FirstLane(sp, 1, work, i1);
    SecondLane(sp, 3, work, i3);
    ThirdLane(sp, 5, work, i5);
    FourthLane(sp, 7, work, i7);
    OddBoxesFrom(sp, work, sp(1, i1), sp(3, i3), sp(5, i5), sp(7, i7));
  }

  lemma RoundFunctionIs(sp: Boxes, half: bv32, k0: bv32, k1: bv32, even: bv32, odd: bv32)
    requires EvenBoxes(sp, EvenInput(half, k0)) == even && OddBoxes(sp, OddInput(half, k1)) == odd
    ensures RoundFunction(sp, half, (k0, k1)) == Xor2(even, odd)
  {
    hide EvenBoxes, OddBoxes, EvenInput, OddInput;
  }

  /** Box n sees the six bits that table E picks from the half, xored with bits
      6n + 1 to 6n + 6 of the round key. */
  lemma RoundFunctionIsStandard(sp: Boxes, r: bv32, k: seq<bool>)
    requires |k| == 48
    ensures RoundFunction(sp, Up(r), KeyWords(k)) == BoxOutputs(sp, r, k)
  {
    hide EvenBoxes, OddBoxes, EvenInput, OddInput, BoxInput, Up, Taken, Wide, Spread, Group, Xor2, Xor4,
      RoundFunction;
    var k0, k1 := KeyWords(k).0, KeyWords(k).1;
    Box0Sees(r, k);
    Box2Sees(r, k);
    Box4Sees(r, k);
    Box6Sees(r, k);
    EvenBoxesAre(sp, EvenInput(Up(r), k0), BoxInput(r, k, 0), BoxInput(r, k, 2), BoxInput(r, k, 4), BoxInput(r, k, 6));
    Box1Sees(r, k);
    Box3Sees(r, k);
    Box5Sees(r, k);
    Box7Sees(r, k);
    OddBoxesAre(sp, OddInput(Up(r), k1), BoxInput(r, k, 1), BoxInput(r, k, 3), BoxInput(r, k, 5), BoxInput(r, k, 7));
    RoundFunctionIs(sp, Up(r), k0, k1, EvenBoxes(sp, EvenInput(Up(r), k0)), OddBoxes(sp, OddInput(Up(r), k1)));
  }

  // ----- the code's round keys are the standard's

  lemma RoundKeyIs(c: seq<bool>, i: int)
    requires |c| == 56 && 0 <= i < 16
    ensures |Totrot| == 16 && 1 <= Totrot[i] <= 28 && RoundKey(c, i) == KeyWords(Selected(Rotated(c, Totrot[i])))
  {
    Rotation(i);
    hide Totrot, Selected, Rotated, SixBits, Group, Spread;
    var k := Selected(Rotated(c, Totrot[i]));
    GroupIsSixBits(k, 0);
    GroupIsSixBits(k, 1);
    GroupIsSixBits(k, 2);
    GroupIsSixBits(k, 3);
    GroupIsSixBits(k, 4);
    GroupIsSixBits(k, 5);
    GroupIsSixBits(k, 6);
    GroupIsSixBits(k, 7);
  }

  lemma MaskedBit(x: bv8, m: int)
    requires 0 <= m < 8
    ensures x & ByteBit(m) != 0 <==> FromLeft(x, m)
  {
    match m {
      case 0 =>
      case 1 =>
      case 2 =>
      case 3 =>
      case 4 =>
      case 5 =>
      case 6 =>
      case 7 =>
    }
  }

  lemma KeyBitIs(key: Block, n: int)
    requires 1 <= n <= 64
    ensures KeyBit(key, n - 1) == BlockBit(key, n)
  {
    hide ByteBit, FromLeft;
    MaskedBit(key[(n - 1) / 8], (n - 1) % 8);
  }

  lemma ChoiceIs(key: Block)
    ensures Choice(key) == Halves(key, 0)
  {
    hide Pc1, KeyBit, BlockBit, Choice, Pc1Column;
    var c, h := Choice(key), Halves(key, 0);
    forall j | 0 <= j < 56 ensures c[j] == h[j] {
      ChoiceAt(key, j);
      Pc1Columns(j);
      KeyBitIs(key, Pc1[j]);
    }
  }

  lemma HalvesStep(key: Block, i: nat)
    requires 1 <= i <= 16
    ensures i == 1 || i == 2 || i == 9 || i == 16 ==> Halves(key, i) == RotateOnce(Halves(key, i - 1))
    ensures 3 <= i <= 8 || 10 <= i <= 15 ==> Halves(key, i) == RotateOnce(RotateOnce(Halves(key, i - 1)))
  {
    hide RotateOnce;
  }

  lemma {:induction false} HalvesAre(key: Block, i: nat)
    requires 1 <= i <= 16
    ensures |Totrot| == 16 && 1 <= Totrot[i - 1] <= 28 && Halves(key, i) == Rotated(Choice(key), Totrot[i - 1])
  {
    hide Totrot, Rotated, RotateOnce, Choice, Halves;
    var c := Choice(key);
    ScheduleRotations(c, i - 1);
    HalvesStep(key, i);
    if i == 1 {
      ChoiceIs(key);
    } else {
      HalvesAre(key, i - 1);
      var before := Rotated(c, Totrot[i - 2]);
      assert Halves(key, i - 1) == before;
      if i == 2 || i == 9 || i == 16 {
        assert Rotated(c, Totrot[i - 1]) == RotateOnce(before);
      } else {
        assert Rotated(c, Totrot[i - 1]) == RotateOnce(RotateOnce(before));
      }
    }
  }

  lemma ScheduleIs(key: Block, i: int)
    requires 0 <= i < 16
    ensures Schedule(key)[i] == KeyWords(Subkeys(key)[i])
  {
    hide Totrot, Rotated, Choice, RoundKey, KeyWords, Halves, Pc2;
    HalvesAre(key, i + 1);
    RoundKeyIs(Choice(key), i);
    assert Subkey(key, i + 1) == Selected(Halves(key, i + 1));
  }

  // ----- the sixteen rounds

  function Down(x: bv32): bv32 {
    x.RotateRight(1)
  }

  /** L' = R and R' = L xor f(R, K), for one key after another. */
  function StandardRounds(sp: Boxes, ks: seq<seq<bool>>, w: Words): Words
    requires forall k <- ks :: |k| == 48
  {
    if ks == [] then w
    else
      assert ks[0] in ks && forall k <- ks[1..] :: k in ks;
      StandardRounds(sp, ks[1..], (w.1, w.0 ^ Down(BoxOutputs(sp, w.1, ks[0]))))
  }

  lemma UpDown(a: bv32, o: bv32)
    ensures Up(a) ^ o == Up(a ^ Down(o))
  {
  }

  lemma RoundIs(sp: Boxes, k: seq<bool>, w: Words)
    requires |k| == 48
    ensures Round(sp, KeyWords(k), (Up(w.0), Up(w.1))) == (Up(w.1), Up(w.0 ^ Down(BoxOutputs(sp, w.1, k))))
  {
    hide RoundFunction, KeyWords, BoxOutputs, Up, Down;
    RoundFunctionIsStandard(sp, w.1, k);
    UpDown(w.0, BoxOutputs(sp, w.1, k));
  }

  lemma {:induction false} RoundsAre(sp: Boxes, ks: seq<seq<bool>>, keys: seq<Words>, w: Words)
    requires |keys| == |ks| && (forall k <- ks :: |k| == 48)
    requires forall i :: 0 <= i < |ks| ==> |ks[i]| == 48 && keys[i] == KeyWords(ks[i])
    ensures var v := StandardRounds(sp, ks, w); Rounds(sp, keys, (Up(w.0), Up(w.1))) == (Up(v.0), Up(v.1))
    decreases |ks|
  {
    hide Round, KeyWords, BoxOutputs, Up, Down;
    if ks != [] {
      assert ks[0] in ks && forall k <- ks[1..] :: k in ks;
      RoundIs(sp, ks[0], w);
      RoundsAre(sp, ks[1..], keys[1..], (w.1, w.0 ^ Down(BoxOutputs(sp, w.1, ks[0]))));
    }
  }

  // ----- the whole cipher

  lemma WordBit(a: bv8, b: bv8, c: bv8, d: bv8, j: int)
    requires 0 <= j < 8
    ensures HalfBit(Spread(a, b, c, d), j + 1) <==> FromLeft(a, j)
    ensures HalfBit(Spread(a, b, c, d), j + 9) <==> FromLeft(b, j)
    ensures HalfBit(Spread(a, b, c, d), j + 17) <==> FromLeft(c, j)
    ensures HalfBit(Spread(a, b, c, d), j + 25) <==> FromLeft(d, j)
  {
    match j {
      case 0 =>
      case 1 =>
      case 2 =>
      case 3 =>
      case 4 =>
      case 5 =>
      case 6 =>
      case 7 =>
    }
  }

  lemma BitOfBlock(b: Block, n: int)
    requires 1 <= n <= 64
    ensures TestBit(Get(b), n) == BlockBit(b, n)
  {
    hide HalfBit, Spread, FromLeft;
    var j := (n - 1) % 8;
    WordBit(b[0], b[1], b[2], b[3], j);
    WordBit(b[4], b[5], b[6], b[7], j);
    var i := (n - 1) / 8;
    assert n == 8 * i + j + 1;
    assert i == 0 || i == 1 || i == 2 || i == 3 || i == 4 || i == 5 || i == 6 || i == 7;
  }

  /** The round keys in the order of a direction. */
  function SubkeysFor(dir: CipherDir, key: Block): (ks: seq<seq<bool>>)
    ensures |ks| == 16 && forall k <- ks :: |k| == 48
  {
    var ks := Subkeys(key);
    match dir
    case ENCRYPTION => ks
    case DECRYPTION =>
      [ks[15], ks[14], ks[13], ks[12], ks[11], ks[10], ks[9], ks[8],
       ks[7], ks[6], ks[5], ks[4], ks[3], ks[2], ks[1], ks[0]]
  }

  lemma KeysAre(dir: CipherDir, key: Block)
    ensures var keys, ks := KeysFor(dir, key), SubkeysFor(dir, key);
      |keys| == 16 && forall i :: 0 <= i < 16 ==> |ks[i]| == 48 && keys[i] == KeyWords(ks[i])
  {
    hide Schedule, Subkeys, KeyWords, Reverse;
    var keys, ks := KeysFor(dir, key), SubkeysFor(dir, key);
    forall i | 0 <= i < 16 ensures |ks[i]| == 48 && keys[i] == KeyWords(ks[i]) {
      assert ks[i] in ks;
      if dir == ENCRYPTION {
        ScheduleIs(key, i);
      } else {
        ReverseAt(Schedule(key), i);
        ScheduleIs(key, 15 - i);
        assert ks[i] == Subkeys(key)[15 - i];
      }
    }
  }

  /** DES is the standard's: the initial permutation, sixteen rounds with the
      round keys in order or reversed, the halves exchanged, and the inverse
      permutation. */
  lemma DesIsStandard(sp: Boxes, dir: CipherDir, key: Block, b: Block) returns (v: Words, out: Words)
    ensures forall n :: 1 <= n <= 64 ==> TestBit(v, n) == BlockBit(b, Ip(n))
    ensures out == StandardRounds(sp, SubkeysFor(dir, key), v)
    ensures forall n :: 1 <= n <= 64 ==> BlockBit(DesBlock(sp, dir, key, b), n) == TestBit((out.1, out.0), Fp(n))
  {
    hide IPERM, FPERM, Rounds, TestBit, BlockBit, Get, Put, KeysFor, SubkeysFor, Ip, Fp, Up, StandardRounds;
    var w, keys, ks := Get(b), KeysFor(dir, key), SubkeysFor(dir, key);
    v := RotateDown(IPERM(w));
    out := StandardRounds(sp, ks, v);
    InitialPermutation(w);
    forall n | 1 <= n <= 64 ensures TestBit(v, n) == BlockBit(b, Ip(n)) {
      FpIp(n);
      BitOfBlock(b, Ip(n));
    }
    KeysAre(dir, key);
    RoundsAre(sp, ks, keys, v);
    Rotations(IPERM(w));
    UpWords(v);
    UpWords(out);
    FinalPermutation((out.1, out.0));
    SwapUp(out);
    var result := DesWords(sp, keys, w);
    GetPut(result);
    forall n | 1 <= n <= 64 ensures BlockBit(Put(result), n) == TestBit((out.1, out.0), Fp(n)) {
      BitOfBlock(Put(result), n);
    }
  }

  lemma UpWords(w: Words)
    ensures RotateUp(w) == (Up(w.0), Up(w.1))
  {
  }

  lemma SwapUp(w: Words)
    ensures Swap(RotateUp((w.1, w.0))) == RotateUp(w)
  {
  }
}
